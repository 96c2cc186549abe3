/** CRC-16/CCITT-FALSE as computed by `crc16_ccitt` and `crc16_ccitt_continue`:
    the ITU-T V.41 polynomial 0x1021, seed 0xFFFF, most significant bit first,
    no reflection and no final XOR. `bv16` arithmetic wraps exactly like the
    C `uint16_t` running value. */
module Crc {
  import opened Bytes

  const Polynomial: bv16 := 0x1021
  const Seed: bv16 := 0xFFFF

  /** One bit round: shift left, XOR the polynomial in when the top bit
      falls out. */
  function ShiftRound(crc: bv16): bv16 {
    if crc & 0x8000 != 0 then (crc << 1) ^ Polynomial else crc << 1
  }

  /** `n` bit rounds. */
  function Rounds(crc: bv16, n: nat): bv16
    decreases n
  {
    if n == 0 then crc else Rounds(ShiftRound(crc), n - 1)
  }

  /** One input byte: XOR it into the high byte, then eight bit rounds. */
  function ByteStep(crc: bv16, b: byte): bv16 {
    Rounds(crc ^ ((b as bv16) << 8), 8)
  }

  /** The CRC register after running over `data` from the register value
      `crc`, byte by byte from the front. */
  function Continue(crc: bv16, data: seq<byte>): bv16
    decreases |data|
  {
    if data == [] then crc else Continue(ByteStep(crc, data[0]), data[1..])
  }

  /** The CRC of `data` from the fixed seed. */
  function Crc16(data: seq<byte>): bv16 {
    Continue(Seed, data)
  }

  /** `crc16_ccitt_continue(crc, data, length)`: the byte loop with the bit
      loop inside it. */
  method Crc16CcittContinue(crc0: bv16, data: seq<byte>) returns (crc: bv16)
    requires |data| < 0x1_0000
    ensures crc == Continue(crc0, data)
  {
    crc := crc0;
    var i := 0;
    while i < |data|
      invariant 0 <= i <= |data|
      invariant Continue(crc, data[i..]) == Continue(crc0, data)
    {
      ghost var before := crc;
      crc := crc ^ ((data[i] as bv16) << 8);
      var j := 0;
      while j < 8
        invariant 0 <= j <= 8
        invariant Rounds(crc, 8 - j) == ByteStep(before, data[i])
      {
        if crc & 0x8000 != 0 {
          crc := (crc << 1) ^ Polynomial;
        } else {
          crc := crc << 1;
        }
        j := j + 1;
      }
      assert data[i..][1..] == data[i + 1..];
      i := i + 1;
    }
  }

  /** `crc16_ccitt(data, length)`: the same loop started from the seed. */
  method Crc16Ccitt(data: seq<byte>) returns (crc: bv16)
    requires |data| < 0x1_0000
    ensures crc == Continue(Seed, data)
  {
    crc := Crc16CcittContinue(Seed, data);
  }

  /** Continuing over A and then over B is continuing over A ++ B: the law
      that lets the parser check the header and the payload as two spans. */
  lemma {:induction false} ContinueAppend(crc: bv16, a: seq<byte>, b: seq<byte>)
    ensures Continue(Continue(crc, a), b) == Continue(crc, a + b)
    decreases |a|
  {
    if a != [] {
      assert (a + b)[0] == a[0];
      assert (a + b)[1..] == a[1..] + b;
      ContinueAppend(ByteStep(crc, a[0]), a[1..], b);
    } else {
      assert a + b == b;
    }
  }

  /** The seeded CRC over A ++ B is the seeded CRC over A continued over B. */
  lemma Crc16Split(a: seq<byte>, b: seq<byte>)
    ensures Crc16(a + b) == Continue(Crc16(a), b)
  {
    ContinueAppend(Seed, a, b);
  }
}
