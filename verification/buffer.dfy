/**
  The byte buffer's scatter read (`Buffer::readFd`).

  A buffer is its storage (whose length is `capacity_`) with a read index
  and a write index; the bytes between them are the readable data.  The
  single `readv` call is an input: either a failure with its `errno`, or
  the bytes the kernel delivered, which it places first into the buffer's
  writable tail and then into a 64 KiB stack area.  `append` belongs to
  Buffer.h, which is not part of this model; it is given this growth
  policy: move the readable bytes back to the reserve if that makes room,
  grow the storage otherwise.  `readFd`'s properties rest on its contract.
 */
module Buffers {

  newtype byte = b: int | 0 <= b < 256

  /** Bytes reserved in front of the data for a later length prefix. */
  const CheapPrependSize: nat := 8
  /** Data bytes of a new buffer. */
  const InitialSize: nat := 1024
  /** `sizeof extrabuf`: the stack area `readFd` reads overflow into. */
  const ExtraBufSize: nat := 65536

  datatype Buffer = Buffer(storage: seq<byte>, readIndex: nat, writeIndex: nat)
  {
    /** `read_index <= write_index <= capacity`. */
    predicate Valid() {
      readIndex <= writeIndex <= |storage|
    }

    function Capacity(): nat {
      |storage|
    }

    function ReadableBytes(): nat
      requires Valid()
    {
      writeIndex - readIndex
    }

    function WritableBytes(): nat
      requires Valid()
    {
      |storage| - writeIndex
    }

    function PrependableBytes(): nat {
      readIndex
    }

    /** The unread data. */
    function Readable(): seq<byte>
      requires Valid()
    {
      storage[readIndex..writeIndex]
    }
  }

  /** A new buffer: the prepend reserve plus the initial data area, both indices after the reserve. */
  function NewBuffer(): (b: Buffer)
    ensures b.Valid() && b.Readable() == []
    ensures b.PrependableBytes() == CheapPrependSize && b.WritableBytes() == InitialSize
  {
    Buffer(seq(CheapPrependSize + InitialSize, _ => 0), CheapPrependSize, CheapPrependSize)
  }

  /** `storage` with `data` written at `at`. */
  function Overwrite(storage: seq<byte>, at: nat, data: seq<byte>): (r: seq<byte>)
    requires at + |data| <= |storage|
    ensures |r| == |storage|
    ensures r[..at] == storage[..at] && r[at..at + |data|] == data
  {
    storage[..at] + data + storage[at + |data|..]
  }

  /**
    `append`: the data is added after the readable bytes.  When the tail is
    too small, the readable bytes are first moved back to the reserve offset
    if that makes room, and the storage is grown otherwise.
   */
  function Append(b: Buffer, data: seq<byte>): (r: Buffer)
    requires b.Valid()
    ensures r.Valid()
    ensures r.Readable() == b.Readable() + data
    ensures r.ReadableBytes() == b.ReadableBytes() + |data|
    ensures r.Capacity() >= b.Capacity()
  {
    var len := |data|;
    if b.WritableBytes() >= len then
      Buffer(Overwrite(b.storage, b.writeIndex, data), b.readIndex, b.writeIndex + len)
    else if b.WritableBytes() + b.PrependableBytes() >= len + CheapPrependSize then
      var moved := Overwrite(b.storage, CheapPrependSize, b.Readable() + data);
      var r := Buffer(moved, CheapPrependSize, CheapPrependSize + b.ReadableBytes() + len);
      assert r.Readable() == moved[CheapPrependSize..CheapPrependSize + |b.Readable() + data|];
      r
    else
      var r := Buffer(b.storage[..b.writeIndex] + data, b.readIndex, b.writeIndex + len);
      assert r.Readable() == b.storage[b.readIndex..b.writeIndex] + data;
      r
  }

  /** What the one `readv` call did. */
  datatype ReadvResult = ReadvFailed(errno: int) | ReadvBytes(data: seq<byte>)

  /** `iovcnt`: the stack area is offered only when the writable tail is smaller than it. */
  function IovecCount(writable: nat): (n: nat)
    ensures n == 1 || n == 2
  {
    if writable < ExtraBufSize then 2 else 1
  }

  /** The most bytes `readv` can deliver into the segments offered. */
  function IovecCapacity(writable: nat): nat {
    if IovecCount(writable) == 2 then writable + ExtraBufSize else writable
  }

  /**
    One call can always take at least 64 KiB, and takes more than the tail
    exactly when the tail is smaller than the stack area.
   */
  lemma ReadCapacity(writable: nat)
    ensures IovecCount(writable) == 2 <==> writable < ExtraBufSize
    ensures IovecCapacity(writable) >= ExtraBufSize
    ensures IovecCapacity(writable) >= writable
    ensures IovecCapacity(writable) > writable <==> writable < ExtraBufSize
  {
  }

  /** Whether `rv` is something `readv` can return for a buffer with this writable tail. */
  predicate ReadvPossible(writable: nat, rv: ReadvResult) {
    rv.ReadvBytes? ==> |rv.data| <= IovecCapacity(writable)
  }

  /** The buffer after `readFd`, its return value and the `*savedErrno` slot. */
  datatype ReadFdResult = ReadFdResult(buffer: Buffer, n: int, savedErrno: int)

  /**
    The kernel's copy into the writable tail followed by `write_index_ += k`:
    the chunk becomes readable and nothing else moves.
   */
  function WriteToTail(b: Buffer, chunk: seq<byte>): (r: Buffer)
    requires b.Valid() && |chunk| <= b.WritableBytes()
    ensures r.Valid()
    ensures r.Readable() == b.Readable() + chunk
    ensures r.writeIndex == b.writeIndex + |chunk|
    ensures r.readIndex == b.readIndex && r.Capacity() == b.Capacity()
  {
    var r := Buffer(Overwrite(b.storage, b.writeIndex, chunk), b.readIndex, b.writeIndex + |chunk|);
    assert r.Readable() == r.storage[b.readIndex..b.writeIndex] + r.storage[b.writeIndex..b.writeIndex + |chunk|];
    r
  }

  /**
    `readFd`: on failure only the error number is saved; when everything
    fit in the tail the write index advances by the count; otherwise the
    tail is filled (the write index reaches the capacity) and the rest,
    taken from the stack area, is appended.  The return value is `readv`'s.
   */
  function ReadFd(b: Buffer, savedErrno: int, rv: ReadvResult): (r: ReadFdResult)
    requires b.Valid()
    requires ReadvPossible(b.WritableBytes(), rv)
    ensures r.buffer.Valid()
    ensures rv.ReadvFailed? ==> r.n < 0 && r.savedErrno == rv.errno && r.buffer == b
    ensures rv.ReadvBytes? ==> r.n == |rv.data| && r.savedErrno == savedErrno
    ensures rv.ReadvBytes? ==> r.buffer.Readable() == b.Readable() + rv.data
    ensures rv.ReadvBytes? ==> r.buffer.ReadableBytes() == b.ReadableBytes() + r.n
    ensures rv.ReadvBytes? && r.n <= b.WritableBytes() ==>
              && r.buffer.writeIndex == b.writeIndex + r.n
              && r.buffer.readIndex == b.readIndex
              && r.buffer.Capacity() == b.Capacity()
    ensures r.buffer.Capacity() >= b.Capacity()
  {
    var writable := b.WritableBytes();
    match rv
    case ReadvFailed(errno) => ReadFdResult(b, -1, errno)
    case ReadvBytes(data) =>
      var n := |data|;
      if n <= writable then
        ReadFdResult(WriteToTail(b, data), n, savedErrno)
      else
        assert data == data[..writable] + Overflow(b, data);
        ReadFdResult(Append(WriteToTail(b, data[..writable]), Overflow(b, data)), n, savedErrno)
  }

  /**
    When more arrived than the tail holds, the tail is filled to the
    capacity first and exactly the bytes beyond it are handed to `append`.
   */
  lemma OverflowFillsTailThenAppends(b: Buffer, savedErrno: int, data: seq<byte>)
    requires b.Valid() && ReadvPossible(b.WritableBytes(), ReadvBytes(data))
    requires |data| > b.WritableBytes()
    ensures var filled := WriteToTail(b, data[..b.WritableBytes()]);
      && filled.writeIndex == b.Capacity()
      && ReadFd(b, savedErrno, ReadvBytes(data)).buffer == Append(filled, Overflow(b, data))
      && filled.Readable() + Overflow(b, data) == b.Readable() + data
  {
    assert data == data[..b.WritableBytes()] + Overflow(b, data);
  }

  /** The bytes that landed in the stack area and are handed to `append`. */
  function Overflow(b: Buffer, data: seq<byte>): seq<byte>
    requires b.Valid() && |data| > b.WritableBytes()
  {
    data[b.WritableBytes()..]
  }

  /**
    The overflow handed to `append` is exactly the bytes beyond the tail and
    never more than the stack area holds; and it happens only when the tail
    is smaller than the stack area.
   */
  lemma OverflowBounded(b: Buffer, data: seq<byte>)
    requires b.Valid() && ReadvPossible(b.WritableBytes(), ReadvBytes(data))
    requires |data| > b.WritableBytes()
    ensures |Overflow(b, data)| == |data| - b.WritableBytes() <= ExtraBufSize
    ensures IovecCount(b.WritableBytes()) == 2
  {
  }

  /** A tail at least as large as the stack area is read alone and never needs `append`. */
  lemma LargeTailNeverAppends(b: Buffer, savedErrno: int, rv: ReadvResult)
    requires b.Valid() && b.WritableBytes() >= ExtraBufSize
    requires ReadvPossible(b.WritableBytes(), rv)
    ensures IovecCount(b.WritableBytes()) == 1
    ensures ReadFd(b, savedErrno, rv).buffer.readIndex == b.readIndex
    ensures ReadFd(b, savedErrno, rv).buffer.Capacity() == b.Capacity()
  {
  }

  /**
    One call reads at most the tail plus 64 KiB: with a 1,024-byte tail no
    more than 66,560 bytes arrive, and that many are all absorbed.
   */
  lemma ReadFdBurst(b: Buffer, savedErrno: int, data: seq<byte>)
    requires b.Valid() && b.WritableBytes() == 1024
    requires ReadvPossible(b.WritableBytes(), ReadvBytes(data))
    ensures |data| <= 66_560
    ensures var r := ReadFd(b, savedErrno, ReadvBytes(data));
      r.n == |data| && r.buffer.ReadableBytes() == b.ReadableBytes() + |data|
  {
  }
}
