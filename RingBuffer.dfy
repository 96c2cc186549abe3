/** The byte ring buffer: a fixed array of `capacity` bytes, a write index
    `head`, a read index `tail` and a count `length`. Its logical contents
    are the `length` bytes from `tail` on, wrapping at the end of the
    array. */
module RingBuffer {
  import opened Bytes

  /** A uint16 sum reduced modulo a capacity it is less than twice of. */
  lemma ModOnce(x: int, c: int)
    requires 0 < c && 0 <= x < 2 * c
    ensures x % c == if x < c then x else x - c
  {
    if x >= c {
      assert x == c + (x - c);
    }
  }

  /** Reducing before or after adding `b` gives the same index. */
  lemma ModShift(a: int, b: int, c: int)
    requires 0 < c && 0 <= a < 2 * c && 0 <= b && a + b < 2 * c
    ensures (a % c + b) % c == (a + b) % c
  {
    ModOnce(a, c);
    ModOnce(a + b, c);
    ModOnce(a % c + b, c);
  }

  /** `n` bytes of `buf` from `start` on, wrapping at the end. */
  function Window(buf: seq<byte>, start: nat, n: nat): (r: seq<byte>)
    requires start < |buf| && n <= |buf|
    ensures |r| == n
  {
    seq(n, i requires 0 <= i < n => buf[(start + i) % |buf|])
  }

  /** The array after the copies of RingBuffer_Write: `data` from `head`
      on, in two spans when it runs past the end of the array. */
  function Written(buf: seq<byte>, head: nat, data: seq<byte>): (r: seq<byte>)
    requires head < |buf| && |data| <= |buf|
    ensures |r| == |buf|
  {
    if head + |data| > |buf| then
      var first := |buf| - head;
      data[first..] + buf[|data| - first..head] + data[..first]
    else buf[..head] + data + buf[head + |data|..]
  }

  /** The bytes the copies of RingBuffer_Read take: `k` bytes from `tail`
      on, in two spans when they run past the end of the array. */
  function Taken(buf: seq<byte>, tail: nat, k: nat): (r: seq<byte>)
    requires tail < |buf| && k <= |buf|
  {
    if tail + k > |buf| then buf[tail..] + buf[..k - (|buf| - tail)]
    else buf[tail..tail + k]
  }

  /** Writing `data` at the write index, with room for it, appends `data`
      to the contents and leaves the bytes already there alone. */
  lemma WrittenWindow(buf: seq<byte>, tail: nat, len: nat, h: nat, data: seq<byte>)
    requires tail < |buf| && len + |data| <= |buf| && h == (tail + len) % |buf|
    ensures Window(Written(buf, h, data), tail, len + |data|) == Window(buf, tail, len) + data
  {
    var c := |buf|;
    var n := |data|;
    ModOnce(tail + len, c);
    var w := Written(buf, h, data);
    var lhs := Window(w, tail, len + n);
    var rhs := Window(buf, tail, len) + data;
    forall i | 0 <= i < len + n
      ensures lhs[i] == rhs[i]
    {
      ModOnce(tail + i, c);
      var pos := (tail + i) % c;
      if h + n > c {
        var first := c - h;
        if i < len {
          assert n - first <= pos < h;
          assert w[pos] == buf[pos];
        } else if pos >= h {
          assert w[pos] == data[pos - h];
        } else {
          assert w[pos] == data[first + pos];
        }
      } else {
        if i < len {
          assert pos < h || h + n <= pos;
        } else {
          assert h <= pos < h + n;
        }
      }
    }
  }

  /** The two copies RingBuffer_Write makes when `data` runs past the end
      of the array: the part that fits goes at the write index, the rest
      at the front. */
  lemma WrittenWraps(before: seq<byte>, head: nat, data: seq<byte>, mid: seq<byte>, after: seq<byte>)
    requires head < |before| && |data| <= |before| && head + |data| > |before|
    requires mid == before[..head] + data[..|before| - head] + before[|before|..]
    requires after == mid[..0] + data[|before| - head..] + mid[|data| - (|before| - head)..]
    ensures after == Written(before, head, data)
  {
    var first := |before| - head;
    assert mid == before[..head] + data[..first];
    assert mid[|data| - first..] == before[|data| - first..head] + data[..first];
  }

  /** The bytes RingBuffer_Read takes are the first `k` of the contents. */
  lemma TakenWindow(buf: seq<byte>, tail: nat, len: nat, k: nat)
    requires tail < |buf| && k <= len <= |buf|
    ensures Taken(buf, tail, k) == Window(buf, tail, len)[..k]
  {
    var c := |buf|;
    var t := Taken(buf, tail, k);
    var win := Window(buf, tail, len);
    assert |t| == k;
    forall i | 0 <= i < k
      ensures t[i] == win[i]
    {
      ModOnce(tail + i, c);
    }
  }

  /** After RingBuffer_Read moves the read index past `k` bytes, the
      contents are what followed them. */
  lemma DropWindow(buf: seq<byte>, tail: nat, len: nat, k: nat)
    requires tail < |buf| && k <= len <= |buf|
    ensures (tail + k) % |buf| < |buf|
    ensures Window(buf, (tail + k) % |buf|, len - k) == Window(buf, tail, len)[k..]
  {
    var c := |buf|;
    ModOnce(tail + k, c);
    var lhs := Window(buf, (tail + k) % c, len - k);
    var rhs := Window(buf, tail, len)[k..];
    forall i | 0 <= i < len - k
      ensures lhs[i] == rhs[i]
    {
      ModShift(tail + k, i, c);
    }
  }

  /** RingBuffer_t. */
  class Ring {
    var buffer: array?<byte>
    var capacity: u16
    var head: u16
    var tail: u16
    var length: u16

    /** An initialised ring: the array holds `capacity` bytes, both
        indices lie inside it, and the write index is `length` bytes after
        the read index. */
    ghost predicate Valid()
      reads this
    {
      && buffer != null && buffer.Length == capacity && 0 < capacity
      && head < capacity && tail < capacity && length <= capacity
      && head == (tail + length) % capacity
    }

    /** The bytes stored, oldest first: buffer[(tail + i) % capacity]
        for i < length. */
    ghost function Contents(): seq<byte>
      requires Valid()
      reads this, buffer
    {
      Window(buffer[..], tail, length)
    }

    /** A zero-initialised RingBuffer_t, before RingBuffer_Init. */
    constructor ()
      ensures buffer == null && capacity == 0 && head == 0 && tail == 0 && length == 0
    {
      buffer := null;
      capacity := 0;
      head := 0;
      tail := 0;
      length := 0;
    }

    /** RingBuffer_Init(rb, cap); `allocOk` is whether calloc succeeds. On
        failure the buffer pointer is left null and nothing else changes. */
    method Init(cap: u16, allocOk: bool) returns (ok: bool)
      requires cap > 0
      modifies this
      ensures ok == allocOk
      ensures ok ==> Valid() && fresh(buffer) && capacity == cap && head == 0 && tail == 0 && length == 0
      ensures ok ==> Contents() == [] && buffer[..] == Zeros(cap)
      ensures !ok ==> buffer == null && capacity == old(capacity) && head == old(head) && tail == old(tail) && length == old(length)
    {
      if !allocOk {
        buffer := null;
        return false;
      }
      var a := new byte[cap](_ => 0);
      assert a[..] == Zeros(cap);
      buffer, capacity := a, cap;
      head, tail, length := 0, 0, 0;
      ModOnce(0, cap as int);
      assert Valid();
      assert Contents() == [];
      return true;
    }

    /** RingBuffer_Free: drops the array and zeroes capacity and both
        indices, but leaves `length` as it was. */
    method Free()
      modifies this
      ensures old(buffer) != null ==> buffer == null && capacity == 0 && head == 0 && tail == 0
      ensures old(buffer) == null ==> buffer == null && capacity == old(capacity) && head == old(head) && tail == old(tail)
      ensures length == old(length)
    {
      if buffer != null {
        buffer := null;
        capacity := 0;
        head := 0;
        tail := 0;
      }
    }

    /** RingBuffer_GetFreeSpace: capacity - length as a uint16. */
    function FreeSpace(): (r: u16)
      reads this, buffer
      ensures Valid() ==> r + |Contents()| == capacity
    {
      (capacity - length) % 0x1_0000
    }

    /** RingBuffer_GetUsedSpace. */
    function UsedSpace(): (r: u16)
      reads this, buffer
      ensures Valid() ==> r == |Contents()|
    {
      length
    }

    /** RingBuffer_IsEmpty. */
    function IsEmpty(): (r: bool)
      reads this, buffer
      ensures Valid() ==> (r <==> Contents() == [])
    {
      length == 0
    }

    /** RingBuffer_IsFull. */
    function IsFull(): (r: bool)
      reads this, buffer
      ensures Valid() ==> (r <==> |Contents()| == capacity)
    {
      length == capacity
    }

    /** Free and used space always add up to the capacity. */
    lemma SpaceSum()
      requires Valid()
      ensures FreeSpace() + UsedSpace() == capacity
      ensures IsEmpty() <==> UsedSpace() == 0
      ensures IsFull() <==> FreeSpace() == 0
    {
    }

    /** The memcpy calls of RingBuffer_Write: `data` from the write index
        on, in two spans when it runs past the end of the array. */
    method CopyIn(data: seq<byte>)
      requires buffer != null && buffer.Length == capacity && head < capacity && |data| <= capacity
      modifies buffer
      ensures buffer[..] == Written(old(buffer[..]), head, data)
    {
      ghost var before := buffer[..];
      if head + |data| > capacity {
        var first := capacity - head;
        CopyInto(buffer, head, data[..first]);
        ghost var mid := buffer[..];
        CopyInto(buffer, 0, data[first..]);
        WrittenWraps(before, head, data, mid, buffer[..]);
      } else {
        CopyInto(buffer, head, data);
      }
    }

    /** The memcpy calls of RingBuffer_Read: `k` bytes from the read index
        on to the front of `data`, in two spans when they run past the end
        of the array. */
    method CopyOut(data: array<byte>, k: u16)
      requires buffer != null && buffer.Length == capacity && tail < capacity && k <= capacity
      requires data != buffer && k <= data.Length
      modifies data
      ensures data[..k] == Taken(buffer[..], tail, k) && data[k..] == old(data[k..])
    {
      ghost var before := data[..];
      if tail + k > capacity {
        var first := capacity - tail;
        CopyInto(data, 0, buffer[tail..]);
        ghost var mid := data[..];
        assert mid[..first] == buffer[tail..] && mid[k..] == before[k..];
        CopyInto(data, first, buffer[..k - first]);
        assert data[..k] == mid[..first] + buffer[..k - first];
      } else {
        CopyInto(data, 0, buffer[tail..tail + k]);
        assert data[..k] == buffer[tail..tail + k];
      }
    }

    /** RingBuffer_Write(rb, data, |data|): refused, with nothing changed,
        when the free space is less than |data|; otherwise `data` is copied
        in at the write index (in two spans when it runs past the end of
        the array) and appended to the contents. */
    method Write(data: seq<byte>) returns (ok: bool)
      requires Valid() && |data| < 0x1_0000
      modifies this, buffer
      ensures Valid() && buffer == old(buffer) && capacity == old(capacity) && tail == old(tail)
      ensures ok <==> |data| <= old(capacity - length)
      ensures ok ==> Contents() == old(Contents()) + data
      ensures ok ==> head == (old(head) + |data|) % capacity && length == old(length) + |data|
      ensures ok ==> buffer[..] == Written(old(buffer[..]), old(head), data)
      ensures !ok ==> head == old(head) && length == old(length) && buffer[..] == old(buffer[..])
    {
      if FreeSpace() < |data| {
        return false;
      }
      ghost var w := Written(buffer[..], head, data);
      WrittenWindow(buffer[..], tail, length, head, data);
      assert Window(w, tail, length + |data|) == Contents() + data;
      CopyIn(data);
      Extend(|data|);
      assert buffer[..] == w;
      return true;
    }

    /** The index updates of RingBuffer_Write: the write index moves past
        `count` bytes and they join the contents. */
    method Extend(count: u16)
      requires Valid() && length + count <= capacity
      modifies this
      ensures Valid() && buffer == old(buffer) && capacity == old(capacity) && tail == old(tail)
      ensures head == (old(head) + count) % capacity && length == old(length) + count
      ensures buffer[..] == old(buffer[..])
    {
      var newHead := (head + count) % capacity;
      ModOnce(tail + length, capacity as int);
      ModOnce(head + count, capacity as int);
      ModOnce(tail + (length + count), capacity as int);
      head, length := newHead, length + count;
    }

    /** The index updates of RingBuffer_Read: the read index moves past
        `k` bytes and they leave the contents. */
    method Consume(k: u16)
      requires Valid() && k <= length
      modifies this
      ensures Valid() && buffer == old(buffer) && capacity == old(capacity) && head == old(head)
      ensures Contents() == old(Contents())[k..]
      ensures tail == (old(tail) + k) % capacity && length == old(length) - k
    {
      DropWindow(buffer[..], tail, length, k);
      var newTail := (tail + k) % capacity;
      ModOnce(tail + k, capacity as int);
      ModOnce(tail + length, capacity as int);
      ModOnce(newTail + (length - k), capacity as int);
      tail, length := newTail, length - k;
    }

    /** RingBuffer_Read(rb, data, n): copies min(n, length) bytes, the
        oldest first, to the front of `data`, and drops them from the
        contents; the ring's array is never written. */
    method Read(data: array<byte>, n: u16) returns (k: u16)
      requires Valid() && data != buffer && n <= data.Length
      modifies this, data
      ensures Valid() && buffer == old(buffer) && capacity == old(capacity) && head == old(head)
      ensures buffer[..] == old(buffer[..])
      ensures k == if n <= old(length) then n else old(length)
      ensures data[..k] == old(Contents())[..k] && data[k..] == old(data[k..])
      ensures Contents() == old(Contents())[k..]
      ensures tail == (old(tail) + k) % capacity && length == old(length) - k
    {
      k := n;
      if k > length {
        k := length;
      }
      TakenWindow(buffer[..], tail, length, k);
      CopyOut(data, k);
      Consume(k);
    }
  }
}
