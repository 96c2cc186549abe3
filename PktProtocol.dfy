/** The frame codec of `pkt_protocol.c` on a little-endian host:
      55 AA | type | lenLo lenHi | payload | crcLo crcHi | AA 55
    `protocol_pack_frame` builds a frame; `protocol_parse_byte` is a
    ten-state parser over a `protocol_parser_t`, modelled as the class
    `Parser` whose fields are the struct's fields. Its effect on one byte is
    the function `Step` on the value `ParserView`, and the properties of the
    parser are proved about `Step` (see ParserProofs.dfy). */
module PktProtocol {
  import opened Bytes
  import Crc

  const FrameHeader: u16 := 0xAA55
  const FrameHeaderHigh: byte := 0xAA
  const FrameHeaderLow: byte := 0x55
  const FrameTail: u16 := 0x55AA
  const FrameTailLow: byte := 0xAA
  const FrameTailHigh: byte := 0x55
  /** The largest payload `protocol_pack_frame` accepts. */
  const MaxDataLen: nat := 108
  /** sizeof(protocol_header_t) with 1-byte packing: header, type, len. */
  const HeaderSize: nat := 5
  /** Header, CRC and tail around the payload. */
  const FrameOverhead: nat := 9

  /** protocol_type_t. The parser does not check the type byte against it. */
  const TypeMin: byte := 0x00
  const TypeSensor: byte := 0x01
  const TypeControl: byte := 0x02
  const TypeLog: byte := 0x03
  const TypeMax: byte := 0x04

  datatype Option<T> = None | Some(value: T)

  /** A CRC value as memcpy stores it on a little-endian host. */
  function CrcBytes(c: bv16): seq<byte> {
    [(c & 0xFF) as byte, (c >> 8) as byte]
  }

  /** Reading the two CRC bytes low-first, as the parser does, gives the
      CRC back. */
  lemma CrcBytesDecode(c: bv16)
    ensures (CrcBytes(c)[0] as bv16) | ((CrcBytes(c)[1] as bv16) << 8) == c
  {
  }

  /** The header marker as it lies in memory: 55 AA. */
  lemma HeaderMarkerBytes()
    ensures Le16(FrameHeader) == [FrameHeaderLow, FrameHeaderHigh]
  {
    ByteInj(ToByte(0x55), 0x55);
    ByteInj(ToByte(0xAA), 0xAA);
  }

  /** The tail marker as it lies in memory: AA 55. */
  lemma TailMarkerBytes()
    ensures Le16(FrameTail) == [FrameTailLow, FrameTailHigh]
  {
    ByteInj(ToByte(0x55), 0x55);
    ByteInj(ToByte(0xAA), 0xAA);
  }

  /** The first five bytes of a frame: the packed protocol_header_t. */
  function FrameHead(t: byte, dataLen: u16): seq<byte> {
    Le16(FrameHeader) + [t] + Le16(dataLen)
  }

  /** The five header bytes one by one. */
  lemma HeadBytes(t: byte, n: u16)
    ensures FrameHead(t, n) == [FrameHeaderLow] + ([FrameHeaderHigh] + ([t] + ([Le16(n)[0]] + ([Le16(n)[1]] + []))))
  {
    HeaderMarkerBytes();
  }

  /** The frame for `t` and `data`: header, payload, the CRC of everything
      before it (low byte first), then the tail. */
  function FrameBytes(t: byte, data: seq<byte>): seq<byte>
    requires |data| < 0x1_0000
  {
    var covered := FrameHead(t, |data|) + data;
    covered + CrcBytes(Crc.Crc16(covered)) + Le16(FrameTail)
  }

  /** A frame is the covered part, the CRC bytes and AA 55. */
  lemma FrameParts(t: byte, data: seq<byte>)
    requires |data| < 0x1_0000
    ensures var covered := FrameHead(t, |data|) + data;
      FrameBytes(t, data) == covered + CrcBytes(Crc.Crc16(covered)) + [FrameTailLow, FrameTailHigh]
  {
    TailMarkerBytes();
  }

  /** Where each field of a frame lies: `|data| + 9` bytes, 55 AA, the type,
      the length low byte first, the payload, the CRC of the first
      `5 + |data|` bytes low byte first, then AA 55. */
  lemma FrameLayout(t: byte, data: seq<byte>)
    requires |data| < 0x1_0000
    ensures var f := FrameBytes(t, data);
      && |f| == |data| + FrameOverhead
      && f[0] == 0x55 && f[1] == 0xAA && f[2] == t
      && f[3] as int + 0x100 * f[4] as int == |data|
      && f[HeaderSize..HeaderSize + |data|] == data
      && (f[HeaderSize + |data|] as bv16) | ((f[HeaderSize + |data| + 1] as bv16) << 8)
         == Crc.Crc16(f[..HeaderSize + |data|])
      && f[|data| + 7] == 0xAA && f[|data| + 8] == 0x55
  {
    var head := FrameHead(t, |data|);
    var covered := head + data;
    var crc := Crc.Crc16(covered);
    HeadBytes(t, |data|);
    FrameParts(t, data);
    CrcBytesDecode(crc);
    var f := FrameBytes(t, data);
    assert f[..HeaderSize + |data|] == covered;
    assert f[HeaderSize..HeaderSize + |data|] == data;
  }

  /** protocol_pack_frame(type, data, data_len). `mallocOk` stands for the
      outcome of malloc. None for a payload longer than 108 bytes or a
      failed allocation; otherwise the `data_len + 9` bytes of the frame. */
  method PackFrame(t: byte, data: seq<byte>, dataLen: u16, mallocOk: bool) returns (frame: Option<seq<byte>>)
    requires |data| == dataLen
    ensures frame.None? <==> (dataLen > MaxDataLen || !mallocOk)
    ensures frame.Some? ==> frame.value == FrameBytes(t, data)
  {
    if dataLen > MaxDataLen {
      return None;
    }
    var frameLen := HeaderSize + dataLen + 2 + 2;
    if !mallocOk {
      return None;
    }
    var buf := new byte[frameLen];
    var head := FrameHead(t, dataLen);
    CopyInto(buf, 0, head);
    CopyInto(buf, HeaderSize, data);
    var covered := buf[..HeaderSize + dataLen];
    assert covered == head + data;
    var crc := Crc.Crc16Ccitt(covered);
    CopyInto(buf, HeaderSize + dataLen, CrcBytes(crc));
    CopyInto(buf, HeaderSize + dataLen + 2, Le16(FrameTail));
    assert buf[..] == head + data + CrcBytes(crc) + Le16(FrameTail);
    return Some(buf[..]);
  }

  /** parse_state_t. */
  datatype State =
    | WaitHeader1 | WaitHeader2 | WaitType | WaitLength1 | WaitLength2
    | WaitData | WaitCrc1 | WaitCrc2 | WaitTail1 | WaitTail2

  /** The states in which the payload buffer of the current frame exists. */
  predicate HasPayload(s: State) {
    s.WaitData? || s.WaitCrc1? || s.WaitCrc2? || s.WaitTail1? || s.WaitTail2?
  }

  /** The value of a protocol_parser_t: state, the frame fields and the
      payload cursor. `data` is the content of the payload allocation
      (empty when the pointer is NULL). */
  datatype ParserView = ParserView(
    state: State,
    header: u16,
    ftype: byte,
    len: u16,
    data: seq<byte>,
    crc: bv16,
    dataIndex: u16)

  /** Between the two length bytes only the low byte of the length is set;
      once the payload buffer is allocated it holds exactly `len` bytes. */
  predicate Wf(v: ParserView) {
    && (v.state == WaitLength2 ==> v.len < 0x100)
    && (HasPayload(v.state) ==> |v.data| == v.len)
  }

  /** What protocol_parser_init leaves: every field zero, WAIT_HEADER_1. */
  function Initial(): ParserView {
    ParserView(WaitHeader1, 0, 0, 0, [], 0, 0)
  }

  /** The five header bytes the parser rebuilds from its fields. */
  function HeaderPart(header: u16, ftype: byte, len: u16): seq<byte> {
    Le16(header) + [ftype] + Le16(len)
  }

  /** The CRC the parser expects: over the rebuilt header, continued over
      the payload when there is one. */
  function ExpectedCrc(v: ParserView): bv16 {
    var crc := Crc.Crc16(HeaderPart(v.header, v.ftype, v.len));
    if v.len > 0 then Crc.Continue(crc, v.data) else crc
  }

  /** The second length byte: the length is complete, a payload buffer of
      exactly that many bytes is allocated and the cursor starts at 0. The
      next state is WAIT_DATA whatever the length, 0 included. */
  function LengthComplete(v: ParserView, b: byte): (r: ParserView)
    requires Wf(v) && v.state == WaitLength2
    ensures Wf(r) && r.state == WaitData && r.dataIndex == 0
    ensures r.len == v.len + 0x100 * b as int
  {
    var len := v.len + 0x100 * b as int;
    v.(len := len, data := Zeros(len), dataIndex := 0, state := WaitData)
  }

  /** One payload byte. The C code writes data[data_index] unguarded; for
      length 0 that write falls outside the zero-byte allocation and is not
      modelled, but the byte is still counted. */
  function StoreData(v: ParserView, b: byte): (r: ParserView)
    requires Wf(v) && v.state == WaitData
    ensures Wf(r)
  {
    var data := if v.dataIndex < |v.data| then v.data[v.dataIndex := b] else v.data;
    var index := (v.dataIndex + 1) % 0x1_0000;
    v.(data := data, dataIndex := index, state := if index >= v.len then WaitCrc1 else WaitData)
  }

  /** protocol_parse_byte on the parser value: the next value and whether a
      frame was completed (the C function's 1). A completion leaves the
      value as it was, still in WAIT_TAIL_2. */
  function Step(v: ParserView, b: byte): (r: (ParserView, bool))
    requires Wf(v)
    ensures Wf(r.0)
    ensures r.1 <==> v.state == WaitTail2 && b == FrameTailHigh && v.crc == ExpectedCrc(v)
    ensures r.1 ==> r.0 == v
  {
    if HasPayload(v.state) then BodyStep(v, b) else (HeaderStep(v, b), false)
  }

  /** The cases of the switch up to the second length byte; none of them
      completes a frame. */
  function HeaderStep(v: ParserView, b: byte): (r: ParserView)
    requires Wf(v) && !HasPayload(v.state)
    ensures Wf(r)
  {
    match v.state
    case WaitHeader1 =>
      if b == FrameHeaderLow then v.(state := WaitHeader2) else v
    case WaitHeader2 =>
      if b == FrameHeaderHigh then v.(header := FrameHeader, state := WaitType)
      else v.(state := WaitHeader1)
    case WaitType =>
      v.(ftype := b, state := WaitLength1)
    case WaitLength1 =>
      v.(len := b as int, state := WaitLength2)
    case WaitLength2 =>
      LengthComplete(v, b)
  }

  /** The cases of the switch from the payload to the tail. */
  function BodyStep(v: ParserView, b: byte): (r: (ParserView, bool))
    requires Wf(v) && HasPayload(v.state)
    ensures Wf(r.0)
  {
    match v.state
    case WaitData =>
      (StoreData(v, b), false)
    case WaitCrc1 =>
      (v.(crc := b as bv16, state := WaitCrc2), false)
    case WaitCrc2 =>
      (v.(crc := v.crc | ((b as bv16) << 8), state := WaitTail1), false)
    case WaitTail1 =>
      (v.(state := if b == FrameTailLow then WaitTail2 else WaitHeader1), false)
    case WaitTail2 =>
      if b == FrameTailHigh && v.crc == ExpectedCrc(v) then (v, true)
      else (v.(state := WaitHeader1), false)
  }

  /** Feeding `bytes` one by one to a parser that is never reset: the final
      value and the result of each call. */
  function FeedAll(v: ParserView, bytes: seq<byte>): (r: (ParserView, seq<bool>))
    requires Wf(v)
    ensures Wf(r.0) && |r.1| == |bytes|
    decreases |bytes|
  {
    if bytes == [] then (v, [])
    else
      var (v1, done) := Step(v, bytes[0]);
      var (vn, rest) := FeedAll(v1, bytes[1..]);
      (vn, [done] + rest)
  }

  /** protocol_parser_t with its fields; `data` is the payload pointer. */
  class Parser {
    var state: State
    var header: u16
    var ftype: byte
    var len: u16
    var data: array?<byte>
    var crc: bv16
    var tail: u16
    var dataIndex: u16
    ghost var Repr: set<object>

    ghost predicate Valid()
      reads this, Repr
    {
      this in Repr && (data != null ==> data in Repr) && Wf(View())
    }

    ghost function View(): ParserView
      reads this, data
    {
      ParserView(state, header, ftype, len, if data == null then [] else data[..], crc, dataIndex)
    }

    /** A parser struct as protocol_parser_init leaves it. */
    constructor ()
      ensures Valid() && fresh(Repr)
      ensures View() == Initial() && data == null && tail == 0
    {
      state, header, ftype, len, data, crc, tail, dataIndex := WaitHeader1, 0, 0, 0, null, 0, 0, 0;
      Repr := {this};
    }

    /** protocol_parser_init: memset to zero (the payload pointer becomes
        NULL without being freed), then WAIT_HEADER_1. Any state is fine. */
    method Init()
      modifies this
      ensures Valid() && Repr == {this}
      ensures View() == Initial() && data == null && tail == 0
    {
      state, header, ftype, len, data, crc, tail, dataIndex := WaitHeader1, 0, 0, 0, null, 0, 0, 0;
      Repr := {this};
    }

    /** protocol_parser_reset: init first. Init has already set the
        payload pointer to NULL, so the release that follows it in the C
        code never happens; only the init remains. */
    method Reset()
      modifies this
      ensures Valid() && Repr == {this}
      ensures View() == Initial() && data == null && tail == 0
    {
      Init();
    }

    /** protocol_parse_byte: true where the C function returns 1. The
        switch is split into the header states and the payload and trailer
        states so that each half is proved on its own. */
    method ParseByte(b: byte) returns (complete: bool)
      requires Valid()
      modifies Repr
      ensures Valid() && fresh(Repr - old(Repr))
      ensures View() == Step(old(View()), b).0
      ensures complete == Step(old(View()), b).1
    {
      if !HasPayload(state) {
        ParseHeaderByte(b);
        complete := false;
      } else {
        complete := ParseBodyByte(b);
      }
    }

    /** The cases of the switch up to the length. */
    method ParseHeaderByte(b: byte)
      requires Valid() && !HasPayload(state)
      modifies this
      ensures Valid() && fresh(Repr - old(Repr))
      ensures View() == HeaderStep(old(View()), b)
    {
      match state
      case WaitHeader1 =>
        if b == FrameHeaderLow {
          state := WaitHeader2;
        }
      case WaitHeader2 =>
        if b == FrameHeaderHigh {
          header := FrameHeader;
          state := WaitType;
        } else {
          state := WaitHeader1;
        }
      case WaitType =>
        ftype := b;
        state := WaitLength1;
      case WaitLength1 =>
        len := b as int;
        state := WaitLength2;
      case WaitLength2 =>
        CompleteLength(b);
    }

    /** The cases of the switch from the payload to the tail. */
    method ParseBodyByte(b: byte) returns (complete: bool)
      requires Valid() && HasPayload(state)
      modifies Repr
      ensures Valid() && Repr == old(Repr)
      ensures View() == BodyStep(old(View()), b).0
      ensures complete == BodyStep(old(View()), b).1
    {
      complete := false;
      match state
      case WaitData =>
        StoreByte(b);
      case WaitCrc1 =>
        crc := b as bv16;
        state := WaitCrc2;
      case WaitCrc2 =>
        crc := crc | ((b as bv16) << 8);
        state := WaitTail1;
      case WaitTail1 =>
        if b == FrameTailLow {
          state := WaitTail2;
        } else {
          state := WaitHeader1;
        }
      case WaitTail2 =>
        complete := CheckTail(b);
    }

    /** The WAIT_LENGTH_2 branch: finish the length, allocate the payload. */
    method CompleteLength(b: byte)
      requires Valid() && state == WaitLength2
      modifies this
      ensures Valid() && fresh(Repr - old(Repr))
      ensures View() == LengthComplete(old(View()), b)
    {
      len := len + 0x100 * b as int;
      data := new byte[len](_ => 0);
      Repr := Repr + {data};
      dataIndex := 0;
      state := WaitData;
      assert data[..] == Zeros(len);
    }

    /** The WAIT_DATA branch: store the byte, move the cursor. */
    method StoreByte(b: byte)
      requires Valid() && state == WaitData
      modifies Repr
      ensures Valid() && Repr == old(Repr)
      ensures View() == StoreData(old(View()), b)
    {
      if data != null && dataIndex < data.Length {
        data[dataIndex] := b;
      }
      dataIndex := (dataIndex + 1) % 0x1_0000;
      if dataIndex >= len {
        state := WaitCrc1;
      }
    }

    /** The WAIT_TAIL_2 branch: on the tail byte, recompute the CRC over the
        rebuilt header and the payload and compare. The state is left alone
        on success and set to WAIT_HEADER_1 otherwise. */
    method CheckTail(b: byte) returns (complete: bool)
      requires Valid() && state == WaitTail2
      modifies this
      ensures Valid() && Repr == old(Repr)
      ensures View() == BodyStep(old(View()), b).0
      ensures complete == BodyStep(old(View()), b).1
    {
      if b == FrameTailHigh {
        var expected := Crc.Crc16Ccitt(HeaderPart(header, ftype, len));
        if len > 0 {
          expected := Crc.Crc16CcittContinue(expected, data[..]);
        }
        if crc == expected {
          return true;
        }
      }
      state := WaitHeader1;
      return false;
    }
  }

  /** htole16: swaps the two bytes of a uint16. */
  function Htole16(value: bv16): (r: bv16)
    ensures r & 0xFF == value >> 8 && r >> 8 == value & 0xFF
  {
    ((value & 0xFF00) >> 8) | ((value & 0x00FF) << 8)
  }

  /** htole32: reverses the four bytes of a uint32. */
  function Htole32(x: bv32): (r: bv32)
    ensures r & 0xFF == x >> 24
    ensures (r >> 8) & 0xFF == (x >> 16) & 0xFF
    ensures (r >> 16) & 0xFF == (x >> 8) & 0xFF
    ensures r >> 24 == x & 0xFF
  {
    ((x & 0xFF000000) >> 24) | ((x & 0x00FF0000) >> 8) | ((x & 0x0000FF00) << 8) | ((x & 0x000000FF) << 24)
  }

  /** test_htole16: 0x1234 becomes 0x3412. */
  lemma Htole16Example()
    ensures Htole16(0x1234) == 0x3412
  {
  }

  /** Swapping the two bytes twice gives the value back. */
  lemma Htole16Involution(value: bv16)
    ensures Htole16(Htole16(value)) == value
  {
  }

  /** Reversing the four bytes twice gives the value back. */
  lemma Htole32Involution(x: bv32)
    ensures Htole32(Htole32(x)) == x
  {
  }
}
