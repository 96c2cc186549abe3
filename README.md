# serial_pkt_protocol in Dafny

This project models four sequential components of serial_pkt_protocol, a small C library for framing binary messages over serial links.

1. **The frame codec** (`src/pkt_protocol.c`). A frame is
   `55 AA | type | lenLo lenHi | payload | crcLo crcHi | AA 55`.
   - The CRC is CRC-16/CCITT-FALSE: polynomial 0x1021, seed 0xFFFF, MSB first, no reflection and no final XOR. It covers the five header bytes and the payload.
   - `protocol_pack_frame` builds a frame.
   - `protocol_parse_byte` is a ten-state parser that reads a frame one byte at a time.
   - `protocol_parser_init` and `protocol_parser_reset` put the parser back in its waiting state.
   - `htole16` and `htole32` swap bytes.
2. **The streaming receiver** (`src/pkt_protocol_buf.c`). It is a buffer with a write position, a processed position and an embedded parser.
   - Each `protocol_receiver_append` first makes room. It discards processed bytes, then tries to double the buffer once.
   - It then copies what fits and scans the unprocessed bytes with the parser.
   - A frame goes to the callback when the parser completes it and the frame starts inside the buffer.
3. **The ring buffer** (`src/ring_buffer.c`). It is a circular byte queue with a head, a tail and a length.
4. **MQTT topic-filter matching** (`src/mqtt_utils.c`). It implements the `+` and `#` wildcards of section 4.7.1.2 and section 4.7.1.3 of MQTT 3.1.1, with three deviations:
   - empty levels are dropped;
   - only the first 8 levels are looked at;
   - a level of 64 or more bytes makes the topic invalid.

## Form of the model

**Stateful code is modelled as classes.** The model mirrors the C code's split between mutable state and pure computation.
- The parser is the class `PktProtocol.Parser`, and its fields are the fields of `protocol_parser_t`. The receiver is `PktReceiver.Receiver`; the ring buffer is `RingBuffer.Ring`.
- Each class method that changes state is proved against a function on a value of that state:
  - `Parser.ParseByte` implements `Step` on a `ParserView`.
  - `Receiver.Append` implements `AppendSpec` on an `Rx`.
  - `Ring.Write` and `Ring.Read` are stated over the logical contents `Contents()`.
- The properties the library promises are then proved about those functions.

**Loops are modelled as methods.** The CRC loops, the receiver's scan loop and the two MQTT loops are methods with loop invariants. Each is proved equal to a recursive specification:
- `Crc.Continue` for the CRC loops;
- `PktReceiver.ScanFrom` for the scan loop;
- `MqttUtils.SplitSpec` and `MqttUtils.TopicMatchSpec` for the MQTT loops.

**Representation.**
- Bytes are `bv8`.
- 16-bit CRC registers are `bv16`.
- Other `uint16_t` quantities are integers in `[0, 0x10000)`. Their wrap-around is written out wherever it happens in the C code.

**Where the code and the library's own description disagree, the model follows the code:**
- **A length of 0 does not skip to the CRC.** After the second length byte the parser always waits for data. The next byte is counted as payload, so an empty-payload frame never decodes (`ParserProofs.EmptyPayloadNeverCompletes`).
- **`protocol_parser_reset` never frees the payload.** Init has already set the pointer to NULL, so the `free` after it never runs.
- **A successful parse does not reset the parser.** It returns 1 and leaves the state at WAIT_TAIL_2; the caller must reset.
- **The clip after the "defensive" space check can fire in single-threaded use.** It fires whenever one doubling is not enough (`ReceiverTests.ClipReachable`).
- **The pack/parse round trip holds only for payloads of 1 byte or more.** An empty payload is the exception noted in the first item.
- **Bytes after a reported frame are parsed twice.** After a frame, try_parse_frame resets the parser, yet it has already fed the bytes after the frame to it. It then moves those bytes to offset 0 with processed_pos 0, so the next scan feeds them again (`ReceiverProofs.SettleRefeeds`). An append of the test frame followed by `55 AA 01` leaves the parser waiting for a length. The next scan reads `55 AA` as a length of 0xAA55, and the frame those bytes open is lost (`ReceiverTests.RefeedAfterFrame`).
- **A frame whose head is discarded before its rest arrives is lost.** When the rest of a frame fits only once the processed bytes, its head included, are discarded, the parser still accepts the frame. Its start then lies before offset 0, so the boundary check rejects it (`ReceiverFrames.StraddleLost`).

Modules: `Bytes`, `Crc`, `PktProtocol`, `ParserProofs`, `Fixture` (the test vectors), `PktReceiver`, `ReceiverProofs`, `ReceiverFrames`, `ReceiverTests`, `RingBuffer`, `MqttUtils`.

## Model

| member | source | states |
|---|---|---|
| Crc.Crc16CcittContinue | src/pkt_protocol.c:188-207 | The nested byte/bit loop computes `Continue(crc0, data)`, the CRC register after running over `data` from `crc0`. |
| Crc.Crc16Ccitt | src/pkt_protocol.c:167-186 | `crc16_ccitt` is the continuation from the seed 0xFFFF. |
| Crc.ContinueAppend | src/pkt_protocol.c:188-207 | Continuing over `a` then over `b` gives the same register as continuing over `a + b`. |
| Crc.Crc16Split | src/pkt_protocol.c:145-150 | The CRC of a concatenation is the CRC of the first part continued over the second. This is why the parser's header-then-payload computation equals the encoder's one-pass CRC. |
| Fixture.CoveredCrc | tests/pkt_protocol_test.c:33 | The CRC of `55 AA 01 0A 00 "helloworld"` is 0xDA84, stored as `84 DA` in the fixture. |
| Fixture.FixtureFrame | tests/pkt_protocol_test.c:32-34 | Packing type 1 with payload "helloworld" gives exactly the 19-byte fixture. |
| Fixture.SplitBytes | tests/pkt_protocol_test.c:41-42 | The two halves of the split fixture are the frame head plus "hell", and the rest of the frame. |
| Bytes.Le16 | include/pkt_protocol.h:56-63 | A `uint16_t` is stored low byte first: two bytes `lo + 256*hi == v`. |
| Bytes.CopyInto | src/pkt_protocol.c:35 | memcpy: the destination array afterwards is its old prefix, then `src`, then its old suffix. |
| Bytes.MoveToFront | src/pkt_protocol_buf.c:64 | memmove to offset 0: the array afterwards starts with the moved block, followed by its old contents from `count` on. |
| PktProtocol.FrameLayout | src/pkt_protocol.c:21-42 | A frame has `|data| + 9` bytes. They are 55 AA, then the type, then the length (low byte first), then the payload. Next comes the CRC of the first `5 + |data|` bytes, low byte first, and finally AA 55. |
| PktProtocol.HeaderMarkerBytes | include/pkt_protocol.h:9-11 | FRAME_HEADER 0xAA55 lies in memory as 55 AA. |
| PktProtocol.TailMarkerBytes | include/pkt_protocol.h:12 | FRAME_TAIL 0x55AA lies in memory as AA 55. |
| PktProtocol.CrcBytesDecode | src/pkt_protocol.c:110-118 | Reading the stored CRC bytes low-first, as the parser does, gives back the CRC the encoder stored. |
| PktProtocol.PackFrame | src/pkt_protocol.c:12-45 | Returns no frame exactly when the payload is longer than 108 bytes or malloc fails. Otherwise it returns the frame bytes. |
| PktProtocol.Step | src/pkt_protocol.c:66-162 | Parsing one byte reports a completion exactly when the state is WAIT_TAIL_2, the byte is 0x55 and the stored CRC equals the CRC recomputed over the rebuilt header and the payload. A completion leaves the parser as it was. The parser invariant (payload buffer of `len` bytes) is kept. |
| PktProtocol.LengthComplete | src/pkt_protocol.c:96-102 | The second length byte completes a little-endian length `lo + 256*hi`. It allocates a payload of that size, sets the cursor to 0, and always moves to WAIT_DATA, even for length 0. |
| PktProtocol.FeedAll | src/pkt_protocol.c:66-162 | Feeding a byte sequence to the parser gives one result per byte and keeps the parser invariant. |
| PktProtocol.Parser.constructor | src/pkt_protocol.c:48-52 | A fresh parser is what init leaves: every field zero, no payload, WAIT_HEADER_1. |
| PktProtocol.Parser.Init | src/pkt_protocol.c:48-52 | From any state, init zeroes every field (the payload pointer becomes NULL) and sets WAIT_HEADER_1. |
| PktProtocol.Parser.Reset | src/pkt_protocol.c:54-63 | Reset leaves exactly what init leaves, from any state. The pointer is already NULL after init, so there is nothing left to free. |
| PktProtocol.Parser.ParseByte | src/pkt_protocol.c:66-162 | The parser struct afterwards and the returned flag are exactly `Step` of the old parser value and the byte. |
| PktProtocol.Parser.CheckTail | src/pkt_protocol.c:130-159 | The WAIT_TAIL_2 branch recomputes the CRC with the CRC loops. It returns true only when that CRC matches, leaving the state alone; otherwise the state becomes WAIT_HEADER_1. |
| PktProtocol.Parser.StoreByte | src/pkt_protocol.c:103-109 | Stores the byte at the cursor when that lies inside the payload, and advances the cursor. Once the cursor reaches the length the state moves on to WAIT_CRC_1. |
| PktProtocol.Htole16 | src/pkt_protocol.c:209-212 | The result's low byte is the input's high byte, and vice versa. |
| PktProtocol.Htole32 | src/pkt_protocol.c:214-220 | The four bytes of the result are those of the input in reverse order. |
| PktProtocol.Htole16Example | tests/pkt_protocol_test.c:208-216 | 0x1234 becomes 0x3412. |
| PktProtocol.Htole16Involution | src/pkt_protocol.c:209-212 | Swapping twice gives the value back. |
| PktProtocol.Htole32Involution | src/pkt_protocol.c:214-220 | Reversing twice gives the value back. |
| ParserProofs.FeedAllAppend | src/pkt_protocol.c:66-162 | Feeding `a + b` is feeding `a`, then feeding `b` from where `a` left the parser. |
| ParserProofs.HeaderResync | src/pkt_protocol.c:70-87 | In WAIT_HEADER_2 a byte other than 0xAA sends the parser back to WAIT_HEADER_1 without re-testing it. So `55 55 AA` completes nothing and leaves the parser waiting for a header. |
| ParserProofs.NoHeaderQuiet | src/pkt_protocol.c:70-75 | In WAIT_HEADER_1, bytes none of which is 0x55 are ignored: the parser does not change and reports nothing. |
| ParserProofs.HeaderPhase | src/pkt_protocol.c:70-102 | The five header bytes of a frame take a waiting parser to WAIT_DATA. They record the marker, the type and the length, and allocate a zeroed payload, reporting nothing. |
| ParserProofs.DataPhase | src/pkt_protocol.c:103-109 | From cursor `i`, the remaining payload bytes fill the payload exactly and leave the parser in WAIT_CRC_1, reporting nothing. |
| ParserProofs.TailPhase | src/pkt_protocol.c:110-159 | After the payload, CRC bytes `c` and the tail AA 55 report completion on the last byte exactly when `c` is the expected CRC. The parser then stays in WAIT_TAIL_2; on a mismatch it returns to WAIT_HEADER_1. |
| ParserProofs.TailBytes | src/pkt_protocol.c:119-159 | With the CRC read, the tail AA 55 completes exactly when the stored CRC matches; a mismatch returns to WAIT_HEADER_1. |
| ParserProofs.RoundTrip | src/pkt_protocol.c:12-162 | A waiting parser fed a packed frame with a payload of at least one byte reports 0 on every byte but the last and 1 on the last. It then holds the frame's type, length and payload. |
| ParserProofs.EmptyPayloadNeverCompletes | src/pkt_protocol.c:96-109 | A packed frame with an empty payload never decodes. The first CRC byte is swallowed as payload, and the parser ends back in WAIT_HEADER_1 with nothing reported. |
| ParserProofs.PaddedEmptyCompletes | src/pkt_protocol.c:96-109 | A length-0 frame completes only if one extra byte is inserted before its CRC. |
| ParserProofs.HeadAndPrefix | src/pkt_protocol.c:70-109 | A frame's head and its first `k` payload bytes leave the parser holding the partial frame, reporting nothing. |
| ParserProofs.SuffixToTailLow | src/pkt_protocol.c:103-129 | From a partial frame, the rest of the payload, the CRC and the first tail byte bring the parser to WAIT_TAIL_2 with the whole frame, reporting nothing. |
| ParserProofs.AcceptedCompletes | src/pkt_protocol.c:130-155 | A parser holding a correctly checksummed frame in WAIT_TAIL_2 completes on 0x55 and stays where it is. |
| Fixture.ParseStream | src/pkt_protocol.c:66-162 | A fresh parser fed a byte stream in a loop ends as `FeedAll` says, and reports what `FeedAll` reports. |
| Fixture.PackAndParse | tests/pkt_protocol_test.c:219-245 | Packing the sensor payload `01 02 03 04` gives a 13-byte frame. Parsing it reports 0 twelve times and then 1. |
| PktReceiver.ExpectFrameLen | src/pkt_protocol_buf.c:26-27 | The expected frame length is computed in uint16. For a length up to 65526 it is `len + 9`; above that it wraps. |
| PktReceiver.BoundaryValidIff | src/pkt_protocol_buf.c:30-34 | For a byte inside the written data, the size_t boundary test holds exactly when the frame starts at offset 0 or later. A start before 0 wraps to a huge value and fails. |
| PktReceiver.ScanStep | src/pkt_protocol_buf.c:20-58 | One scan iteration moves the unprocessed start only to just past the current byte, and reports at most one frame. Without a callback it reports nothing. |
| PktReceiver.ScanFrom | src/pkt_protocol_buf.c:20-59 | The scan reports at most one frame per byte, and none without a callback. Its unprocessed start is 0 or lies past the first scanned byte. |
| PktReceiver.TryParse | src/pkt_protocol_buf.c:16-68 | try_parse_frame keeps the buffer size and the callback. It only appends to the list of reported frames. |
| PktReceiver.Room | src/pkt_protocol_buf.c:97-108 | Discarding the processed bytes when the data does not fit leaves the data still too big exactly when the unprocessed bytes plus the data exceed the buffer. |
| PktReceiver.Grow | src/pkt_protocol_buf.c:113-135 | A successful realloc doubles the size, keeps both positions and keeps the old bytes at the front of the new buffer. |
| PktReceiver.Put | src/pkt_protocol_buf.c:151-153 | Copying `n` bytes advances write_pos by `n` and changes nothing else but the buffer. |
| PktReceiver.AppendSpec | src/pkt_protocol_buf.c:93-157 | After an append the buffer has either kept its size or doubled, and the callback is unchanged. It keeps `processed_pos <= write_pos <= buffer_size` through the type `Rx`. |
| PktReceiver.GrowthWraps | src/pkt_protocol_buf.c:113 | As written, doubling a buffer of 0x8000 bytes or more asks realloc for fewer bytes than it holds: 0x8000 gives 0. |
| PktReceiver.CanGrow | src/pkt_protocol_buf.c:113-135 | The model grows only when the doubled size fits in a uint16. There the size as written equals twice the size. |
| PktReceiver.Fresh | src/pkt_protocol_buf.c:77-84 | A freshly initialised receiver has both positions 0 and has reported nothing. |
| PktReceiver.Receiver.constructor | src/pkt_protocol_buf.c:77-84 | protocol_receiver_init: a buffer of `buf_size` bytes, both positions 0, the callback set, and a parser waiting for a header. |
| PktReceiver.Receiver.Destroy | src/pkt_protocol_buf.c:164-171 | The buffer is released and its size and both positions become 0. The parser and the frames reported are left alone. |
| PktReceiver.Receiver.Completed | src/pkt_protocol_buf.c:24-52 | On a completion, the frame is reported exactly when its boundary is valid and there is a callback. processed_pos moves on by one either way, and the parser is reset. |
| PktReceiver.Receiver.ScanOne | src/pkt_protocol_buf.c:20-58 | One loop iteration advances processed_pos by exactly one and does what `ScanStep` says. |
| PktReceiver.Receiver.ScanBytes | src/pkt_protocol_buf.c:20-59 | The loop feeds each byte of `[processed_pos, write_pos)` to the parser once, in order, and ends at write_pos. Its outcome is `ScanFrom`. |
| PktReceiver.Receiver.SettleBuffer | src/pkt_protocol_buf.c:60-67 | If a frame was reported, the bytes after it move to offset 0. write_pos then becomes their count and processed_pos 0; otherwise nothing changes. |
| PktReceiver.Receiver.TryParseFrame | src/pkt_protocol_buf.c:16-68 | The receiver afterwards is `TryParse` of the receiver before. |
| PktReceiver.Receiver.DiscardProcessed | src/pkt_protocol_buf.c:97-108 | The first space check, as `Room` states it. |
| PktReceiver.Receiver.GrowBuffer | src/pkt_protocol_buf.c:113-135 | A doubled buffer holding the old bytes, as `Grow` states it. |
| PktReceiver.Receiver.PartialWrite | src/pkt_protocol_buf.c:115-132 | When realloc fails, the first `buffer_size - write_pos` bytes are written and the scan runs. |
| PktReceiver.Receiver.ClippedWrite | src/pkt_protocol_buf.c:140-156 | The second space check clips the data to the free space. With no free space it returns without scanning; otherwise it writes and scans. |
| PktReceiver.Receiver.Append | src/pkt_protocol_buf.c:93-157 | The receiver afterwards is `AppendSpec` of the receiver before, the data and the realloc outcome. |
| ReceiverProofs.ScanQuiet | src/pkt_protocol_buf.c:20-58 | Scanning bytes that complete no frame only moves the parser. |
| ReceiverProofs.ScanComplete | src/pkt_protocol_buf.c:20-52 | A scan whose last byte completes a frame starting at or after offset 0 reports the frame and resets the parser. The unprocessed data then starts after that byte. |
| ReceiverProofs.ScanIncomplete | src/pkt_protocol_buf.c:20-52 | A scan whose last byte completes a frame starting before offset 0 reports nothing, resets the parser and leaves the unprocessed start as it was. |
| ReceiverProofs.TryParseQuiet | src/pkt_protocol_buf.c:16-68 | Over unprocessed bytes that complete no frame, nothing is reported, processed_pos reaches write_pos and the buffer is untouched. |
| ReceiverProofs.TryParseComplete | src/pkt_protocol_buf.c:16-68 | Over unprocessed bytes ending a frame that lies inside the buffer, the frame is reported (with a callback), the parser is reset and both positions return to 0. |
| ReceiverProofs.TryParseLost | src/pkt_protocol_buf.c:26-52 | A frame the parser accepts but whose start lies before offset 0 is never reported, and the buffer is not compacted. |
| ReceiverProofs.SettleRefeeds | src/pkt_protocol_buf.c:60-67 | After a reported frame, the bytes after it move to offset 0 with processed_pos 0, although the parser has already consumed them: they are fed to it again. With no frame reported, the buffer and write_pos stay. |
| ReceiverProofs.AppendFits | src/pkt_protocol_buf.c:97-156 | An append that fits copies all the data and scans; the realloc outcome plays no part. |
| ReceiverProofs.AppendQuiet | src/pkt_protocol_buf.c:93-157 | A fitting append of bytes that complete no frame reports nothing and moves both positions to the end of the new bytes. |
| ReceiverProofs.AppendComplete | src/pkt_protocol_buf.c:93-157 | A fitting append whose last byte ends a frame inside the buffer reports the frame and empties the buffer. |
| ReceiverProofs.ScanTwo | src/pkt_protocol_buf.c:20-59 | A scan over two stretches that each end a frame inside the buffer reports both frames in order and resets the parser. The unprocessed data then starts at the end. |
| ReceiverProofs.TryParseTwo | src/pkt_protocol_buf.c:16-68 | Over unprocessed bytes that are two whole frames back to back, both are reported in order (with a callback), the parser is reset and both positions return to 0. |
| ReceiverProofs.AppendTwoComplete | src/pkt_protocol_buf.c:93-157 | A fitting append of two frames back to back reports both in order and empties the buffer. |
| ReceiverProofs.ScanFrameThenQuiet | src/pkt_protocol_buf.c:20-59 | A scan over a frame and then bytes that complete nothing reports the frame. The unprocessed data then starts right after the frame, with the parser already past those bytes. |
| ReceiverProofs.TryParseRefeeds | src/pkt_protocol_buf.c:16-68 | After a frame followed by bytes `c` that complete nothing, the frame is reported and `c` moves to offset 0 with processed_pos 0. The parser already stands where `c` takes it, so `c` will be fed to it a second time. |
| ReceiverProofs.AppendRefeeds | src/pkt_protocol_buf.c:93-157 | A fitting append of a frame and then bytes `c` that complete nothing reports the frame. It leaves `c` at offset 0, unprocessed, and the parser already past `c`. |
| ReceiverProofs.ClipAfterGrowth | src/pkt_protocol_buf.c:110-150 | When one doubling is not enough, the buffer doubles and the data is clipped to the new free space. |
| ReceiverFrames.AppendWholeFrame | src/pkt_protocol_buf.c:93-157 | Appending a whole frame to a receiver waiting for a header reports exactly that frame's type and payload (with a callback) and empties the buffer. |
| ReceiverFrames.FrameEnds | src/pkt_protocol.c:12-162 | A packed frame with a payload of at least one byte completes nothing before its last byte, and the last byte completes it. Its expected length is `|d| + 9`. |
| ReceiverFrames.AppendTwoFrames | src/pkt_protocol_buf.c:93-157 | Appending two whole frames in one call to a receiver waiting for a header reports both, in order, with their types and payloads (with a callback). It then empties the buffer and resets the parser. |
| ReceiverFrames.AppendFrameThenRest | src/pkt_protocol_buf.c:60-67 | Appending a whole frame followed by bytes `c` that complete nothing reports the frame. It leaves `c` at offset 0 with processed_pos 0 and the parser already past `c`. |
| ReceiverFrames.AppendFrameStart | src/pkt_protocol_buf.c:93-157 | Appending a frame's head and part of its payload reports nothing and leaves the parser holding the partial frame. |
| ReceiverFrames.AppendFrameRest | src/pkt_protocol_buf.c:93-157 | Appending the rest of that frame reports it and empties the buffer. |
| ReceiverFrames.AppendNoHeader | src/pkt_protocol_buf.c:93-157 | Appending bytes without 0x55 to a receiver waiting for a header reports nothing; the bytes stay in the buffer, processed. |
| ReceiverFrames.AppendAfterDiscard | src/pkt_protocol_buf.c:97-108 | An append that fits only once the processed bytes are discarded is the same append to the receiver with those bytes discarded. |
| ReceiverFrames.StraddleLost | src/pkt_protocol_buf.c:97-108 | When the rest of a frame only fits after its head was discarded as processed, the parser still accepts the frame. Its start now lies before offset 0, so it is never reported. |
| ReceiverTests.AllAppend | tests/pkt_protocol_test.c:30-37 | One append of the fixture frame gives one callback and an empty buffer. |
| ReceiverTests.SplitAppend | tests/pkt_protocol_test.c:39-46 | The fixture in two halves gives no callback after the first half and one after the second. |
| ReceiverTests.MultiplePartialAppend | tests/pkt_protocol_test.c:48-65 | Two garbage chunks, then the split frame, give one callback and write_pos 0. |
| ReceiverTests.MultiplePartialAppend2 | tests/pkt_protocol_test.c:67-84 | The split frame twice gives two callbacks and write_pos 0. |
| ReceiverTests.MultiplePartialAppend3 | tests/pkt_protocol_test.c:86-103 | The split frame, then the whole frame, give two callbacks and write_pos 0. |
| ReceiverTests.MultiplePartialAppend4 | tests/pkt_protocol_test.c:105-131 | Frame, frame, garbage, frame gives three callbacks and write_pos 0. |
| ReceiverTests.AppendNormal | tests/pkt_protocol_test.c:137-151 | The packed sensor frame in one append gives one callback and write_pos 0. |
| ReceiverTests.AppendAfterProcessing | tests/pkt_protocol_test.c:154-172 | With 10 processed bytes of 50, the 60-byte fill and then the sensor frame give one callback and processed_pos 0. |
| ReceiverTests.PartialDiscardOnReallocFail | tests/pkt_protocol_test.c:179-190 | In a 50-byte buffer at write_pos 40, 20 bytes with realloc failing leave write_pos 50. |
| ReceiverTests.FullDiscardOnReallocFail | tests/pkt_protocol_test.c:196-206 | In a full 50-byte buffer, 20 bytes with realloc failing leave write_pos 50. |
| ReceiverTests.SplitFrameLostInSmallBuffer | src/pkt_protocol_buf.c:97-108 | In an 18-byte receiver the split fixture completes in the parser but is never reported. |
| ReceiverTests.ClipReachable | src/pkt_protocol_buf.c:140-150 | 25 bytes into an empty 10-byte receiver grow it to 20 and drop the last 5, in single-threaded use. |
| ReceiverTests.EmptyBufferDropsAll | src/pkt_protocol_buf.c:110-150 | A receiver initialised with 0 bytes drops every append, whether realloc succeeds or fails. On success, doubling 0 gives 0 and the clip returns before scanning. On failure, nothing is written and the scan over no bytes changes nothing. |
| ReceiverTests.NextHeadQuiet | src/pkt_protocol.c:70-91 | The bytes `55 AA 01` take a waiting parser to WAIT_LENGTH_1 with type 1, reporting nothing. |
| ReceiverTests.NextHeadAsLength | src/pkt_protocol.c:92-109 | Fed to a parser in WAIT_LENGTH_1, the bytes `55 AA 01` become a length of 0xAA55 and a first payload byte. |
| ReceiverTests.RefeedAfterFrame | src/pkt_protocol_buf.c:60-67 | The test frame followed by `55 AA 01` in one append to a 100-byte receiver reports the frame. It leaves `55 AA 01` unprocessed at offset 0 with the parser already in WAIT_LENGTH_1, and feeding them again gives a length of 0xAA55. |
| RingBuffer.WrittenWindow | src/ring_buffer.c:47-59 | After a write at `head == (tail + length) % capacity`, the logical contents are the old contents followed by the data. |
| RingBuffer.DropWindow | src/ring_buffer.c:77-78 | Moving the tail on by `k` drops exactly the first `k` bytes of the logical contents. |
| RingBuffer.TakenWindow | src/ring_buffer.c:68-76 | The bytes copied out from the tail are the first `k` bytes of the logical contents. |
| RingBuffer.Ring.constructor | include/ring_buffer.h:15-21 | A zeroed RingBuffer_t: no buffer, every count 0. |
| RingBuffer.Ring.Init | src/ring_buffer.c:16-27 | Init succeeds exactly when allocation does. It then sets the capacity, head, tail and length 0, and empty contents; on failure the counts are untouched. |
| RingBuffer.Ring.Free | src/ring_buffer.c:30-38 | With a buffer, Free clears the pointer, capacity, head and tail. `length` is never cleared. |
| RingBuffer.Ring.Write | src/ring_buffer.c:41-61 | The write succeeds exactly when the data fits in the free space, making the contents the old contents followed by the data. Head then moves on by the length modulo the capacity, the length grows, and the array is the two-span copy. A refused write changes nothing. |
| RingBuffer.Ring.Read | src/ring_buffer.c:64-80 | Returns `min(n, length)` bytes, which are the first bytes of the contents. It drops them from the contents, moves the tail on modulo the capacity, and never changes the buffer array. |
| RingBuffer.Ring.Extend | src/ring_buffer.c:58-59 | Head moves on modulo the capacity and the length grows, keeping the ring invariant. |
| RingBuffer.Ring.Consume | src/ring_buffer.c:77-78 | Tail moves on modulo the capacity and the length shrinks; the contents lose their first `k` bytes. |
| RingBuffer.Ring.FreeSpace | src/ring_buffer.c:83-85 | The free space plus the number of stored bytes is the capacity. |
| RingBuffer.Ring.UsedSpace | src/ring_buffer.c:88-90 | The used space is the number of stored bytes. |
| RingBuffer.Ring.IsEmpty | src/ring_buffer.c:93-95 | Empty exactly when nothing is stored. |
| RingBuffer.Ring.IsFull | src/ring_buffer.c:98-100 | Full exactly when the stored bytes fill the capacity. |
| RingBuffer.Ring.SpaceSum | src/ring_buffer.c:83-100 | `FreeSpace + UsedSpace == capacity`. Empty exactly when the used space is 0; full exactly when the free space is 0. |
| MqttUtils.SplitTopic | src/mqtt_utils.c:11-36 | The pointer-walking loops return -1 exactly when one of the first 8 levels is 64 bytes or longer. Otherwise they return those levels and their count. |
| MqttUtils.TopicMatch | src/mqtt_utils.c:39-69 | The matching loop returns exactly `TopicMatchSpec`: false if either topic is invalid, otherwise whether the filter levels match the topic levels. |
| MqttUtils.Levels | src/mqtt_utils.c:16-33 | Every level is non-empty and holds no '/'. |
| MqttUtils.Inspected | src/mqtt_utils.c:16 | Only the first 8 levels are looked at: a prefix of the levels, which is all of them when there are fewer than 8. |
| MqttUtils.SplitJoin | src/mqtt_utils.c:16-33 | Joining non-empty, slash-free levels with '/' and splitting gives them back. |
| MqttUtils.DropsEmptyLevels | src/mqtt_utils.c:16-33 | "/a//b/" splits to ["a", "b"]. |
| MqttUtils.SplitBounds | src/mqtt_utils.c:16-27 | A split gives at most 8 levels, all shorter than 64, and a prefix of the levels. It fails exactly when one of the first 8 levels is 64 bytes or longer. |
| MqttUtils.LongLevelNeverMatches | src/mqtt_utils.c:27-46 | A topic with a too-long inspected level matches nothing, whichever side it is on. |
| MqttUtils.PlusMatchesOneLevel | src/mqtt_utils.c:56-62 | The filter "+" matches exactly the one-level topics. |
| MqttUtils.HashOnlyLast | src/mqtt_utils.c:51-53 | A '#' anywhere but the last filter level makes the match false. |
| MqttUtils.HashMatchesRest | src/mqtt_utils.c:49-67 | A filter ending in '#' matches exactly the topics whose first levels match the rest of the filter, with zero or more levels after them. |
| MqttUtils.LiteralMatchesItself | src/mqtt_utils.c:49-68 | A filter without wildcards matches exactly the topic with the same levels. |

## Left out

- **Console output** from `print_hex_data` and every `printf` diagnostic (src/pkt_protocol.c:222-227, src/pkt_protocol_buf.c:124-129,144) is not modelled.
- `RingBuffer_digest`, `getFullBufferContentAsString` and `RingBuffer_ReadAsString` are debug renderings. They rely on snprintf and locale-dependent `isprint`.
- **Big-endian hosts are not modelled.** The host is fixed as little-endian, where `TO_LE16` is the identity; endianness detection is not modelled.
- **Memory management is reduced to allocation outcomes.**
  - Release, leaks and dangling pointers are not observable here.
  - The parser's frees on a failed tail or CRC only change its state.
  - malloc for the parser's payload and for the receiver's buffer is assumed to succeed.
  - Fresh allocations are modelled as zero bytes, although C's malloc leaves them indeterminate.
- **Allocation outcomes are parameters.** realloc in the receiver is the `reallocOk` parameter; malloc in `protocol_pack_frame` and calloc in `RingBuffer_Init` are `mallocOk` and `allocOk`.
- **The callback is a log.** The foreign function pointer becomes the `emitted` log of (type, payload) plus a flag saying whether a callback is set.
- PktProtocol.StoreData: the write of a length-0 payload's first byte to `data[0]` of a zero-byte allocation is outside the allocation and is not modelled. The byte is still counted, as in the C code.
- PktReceiver.Receiver: the parser is a value field (`ParserView`) operated on with `Step` and reset to `Initial()`. This matches the by-value `protocol_parser_t` in the C struct. `Parser.ParseByte` is separately proved to implement `Step`.
- PktReceiver.Receiver.constructor: `protocol_receiver_init` does not initialise the embedded parser. The model starts it as `protocol_parser_init` leaves it, the state the library's own callers set up.
- PktReceiver.Receiver.Append: requires a live buffer. An append after `protocol_receiver_destroy` dereferences NULL in C.
- PktReceiver.AppendSpec: the doubling is taken only when `2 * buffer_size` fits in a uint16. Otherwise the append follows the failed-realloc path instead of the wrapped size of the C code (see Findings).
- `size_t` is taken to be 64 bits wide.
- **Concurrency is not modelled.** The `volatile` fields of `RingBuffer_t` suggest concurrent use; the model is sequential.
- RingBuffer.Ring.Init, RingBuffer.Ring.Write, RingBuffer.Ring.Read: require a capacity above 0, because capacity 0 divides by zero at src/ring_buffer.c:58,77. `RingBuffer_Init` itself accepts 0 when `calloc(0, 1)` returns a non-NULL pointer; the model does not. Read's output array must differ from the ring's own buffer: overlapping memcpy is undefined.
- **MQTT topics are C byte strings** (`MqttUtils.CString`): the bytes before the terminating NUL, none of them NUL. Lengths count bytes, so a multi-byte UTF-8 character is several elements. UTF-8 validity is not checked, as in the C code.
- `include/ctrl_protocol.h` (packed structs with no logic) and `src/main.c` (a demo program) are not part of this model. `mock_realloc` is declared but never used.

## Findings

| source | as written | input that shows it | evidently intended | confidence | as-written member | corrected member |
|---|---|---|---|---|---|---|
| src/pkt_protocol_buf.c:113 | `new_size = buffer_size * 2` is stored in a `uint16_t` and wraps | buffer_size 0x8000: new_size is 0. realloc shrinks the buffer and later writes run past its end | doubling never shrinks the buffer; when the doubled size does not fit, the append behaves as if realloc failed | not executed | PktReceiver.GrowthWraps | PktReceiver.CanGrow |
