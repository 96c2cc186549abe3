/** Byte-level helpers shared by the frame codec, the streaming receiver and
    the ring buffer: the byte type and the two C library copies (memcpy and
    memmove towards the front of a buffer) written out as loops. */
module Bytes {

  /** uint8_t. */
  type byte = bv8

  /** uint16_t used as a number: frame lengths, cursors, the receiver's
      positions and sizes. Where the C code lets such a value wrap, the
      model reduces modulo 0x1_0000 explicitly. */
  type u16 = x: int | 0 <= x < 0x1_0000

  /** The byte whose value is `x` (a C narrowing to uint8_t of a value that
      fits), built bit by bit from the top so that its value is proved by induction. */
  function ToByte(x: int): (b: byte)
    requires 0 <= x < 0x100
    ensures b as int == x
    decreases x
  {
    if x == 0 then 0
    else
      var half := ToByte(x / 2);
      var bit: byte := if x % 2 == 1 then 1 else 0;
      assert x == 2 * (x / 2) + x % 2;
      ShiftInBit(half, bit);
      (half << 1) | bit
  }

  /** Shifting a bit in below a byte below 0x80 doubles it and adds the bit. */
  lemma ShiftInBit(c: byte, bit: byte)
    requires c as int < 0x80 && bit as int < 2
    ensures ((c << 1) | bit) as int == 2 * c as int + bit as int
  {
  }

  /** Two bytes with the same value are the same byte. */
  lemma ByteInj(a: byte, b: byte)
    requires a as int == b as int
    ensures a == b
  {
  }

  /** A uint16 as it lies in memory on a little-endian host, low byte first. */
  function Le16(v: u16): (r: seq<byte>)
    ensures |r| == 2 && r[0] as int + 0x100 * r[1] as int == v
  {
    [ToByte(v % 0x100), ToByte(v / 0x100)]
  }

  /** `count` zero bytes: what a freshly allocated Dafny array holds. */
  function Zeros(count: nat): (r: seq<byte>)
    ensures |r| == count
    ensures forall i :: 0 <= i < count ==> r[i] == 0
  {
    seq(count, _ => 0)
  }

  /** memcpy(dst + at, src, |src|): the other bytes of `dst` are left alone. */
  method CopyInto(dst: array<byte>, at: nat, src: seq<byte>)
    requires at + |src| <= dst.Length
    modifies dst
    ensures dst[..] == old(dst[..at]) + src + old(dst[at + |src|..])
  {
    var i := 0;
    while i < |src|
      invariant 0 <= i <= |src|
      invariant dst[..at] == old(dst[..at])
      invariant dst[at..at + i] == src[..i]
      invariant dst[at + |src|..] == old(dst[at + |src|..])
    {
      dst[at + i] := src[i];
      i := i + 1;
    }
    assert dst[..] == dst[..at] + dst[at..at + |src|] + dst[at + |src|..];
  }

  /** memmove(buf, buf + from, count): the bytes [from, from + count) move to
      offset 0; the bytes from `count` on keep their old values. */
  method MoveToFront(buf: array<byte>, from: nat, count: nat)
    requires from + count <= buf.Length
    modifies buf
    ensures buf[..] == old(buf[from..from + count]) + old(buf[count..])
  {
    var i := 0;
    while i < count
      invariant 0 <= i <= count
      invariant forall k :: 0 <= k < i ==> buf[k] == old(buf[from + k])
      invariant forall k :: i <= k < buf.Length ==> buf[k] == old(buf[k])
    {
      buf[i] := buf[from + i];
      i := i + 1;
    }
  }
}

