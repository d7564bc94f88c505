/** fs/fs_special.c: a pipe is a ring buffer of bytes. */
module Pipes {
  import opened Bytes

  const SIZE := 4096

  ghost function Slot(from: nat, i: nat): (r: nat)
    ensures r < SIZE
  {
    (from + i) % SIZE
  }

  /** `length` bytes of a ring, from `from` on. */
  ghost function Ring(ring: seq<Byte>, from: nat, length: nat): (r: seq<Byte>)
    requires |ring| == SIZE
    ensures |r| == length
  {
    seq(length, i requires 0 <= i => ring[Slot(from, i)])
  }

  function Next(at: nat): (r: nat)
    requires at < SIZE
    ensures r == (at + 1) % SIZE
  {
    if at + 1 == SIZE then 0 else at + 1
  }

  /** Taking the first byte of a ring. */
  lemma RingTake(ring: seq<Byte>, from: nat, length: nat)
    requires |ring| == SIZE && from < SIZE && length > 0
    ensures Ring(ring, from, length) == [ring[from]] + Ring(ring, Next(from), length - 1)
  {
  }

  /** Putting a byte behind the last one, while there is room. */
  lemma RingPut(ring: seq<Byte>, from: nat, length: nat, at: nat, b: Byte)
    requires |ring| == SIZE && length < SIZE && at == Slot(from, length)
    ensures Ring(ring[at := b], from, length + 1) == Ring(ring, from, length) + [b]
  {
  }

  lemma Shift(done: seq<Byte>, b: Byte, rest: seq<Byte>)
    ensures done + ([b] + rest) == (done + [b]) + rest
  {
  }

  /** pipe_context_t */
  class Pipe {
    const buf: array<Byte>
    var readOffset: nat
    var writeOffset: nat
    var length: nat

    ghost predicate Valid()
      reads this, buf
    {
      && buf.Length == SIZE && readOffset < SIZE && length <= SIZE
      && writeOffset == Slot(readOffset, length)
    }

    /** The bytes written and not yet read, oldest first. */
    ghost function Contents(): (r: seq<Byte>)
      requires Valid()
      reads this, buf
      ensures |r| == length
    {
      Ring(buf[..], readOffset, length)
    }

    /** pipe_open */
    constructor ()
      ensures Valid() && Contents() == [] && fresh(buf)
    {
      buf := new Byte[SIZE](_ => 0);
      readOffset, writeOffset, length := 0, 0, 0;
    }

    /** One round of the loop in pipe_read, with `left` bytes in the ring. */
    method Pop(ghost left: nat) returns (b: Byte)
      requires buf.Length == SIZE && readOffset < SIZE && left > 0 && writeOffset == Slot(readOffset, left)
      modifies this`readOffset
      ensures readOffset < SIZE && writeOffset == Slot(readOffset, left - 1)
      ensures old(Ring(buf[..], readOffset, left)) == [b] + Ring(buf[..], readOffset, left - 1)
    {
      RingTake(buf[..], readOffset, left);
      b := buf[readOffset];
      readOffset := Next(readOffset);
    }

    /** One round of the loop in pipe_write, with `held` bytes in the ring. */
    method Push(b: Byte, ghost held: nat)
      requires buf.Length == SIZE && held < SIZE && writeOffset == Slot(readOffset, held)
      modifies this`writeOffset, buf
      ensures writeOffset == Slot(readOffset, held + 1)
      ensures Ring(buf[..], readOffset, held + 1) == old(Ring(buf[..], readOffset, held)) + [b]
    {
      RingPut(buf[..], readOffset, held, writeOffset, b);
      ghost var ring := buf[..];
      buf[writeOffset] := b;
      assert buf[..] == ring[writeOffset := b];
      writeOffset := Next(writeOffset);
    }

    /** pipe_read: the oldest bytes, as many as asked for and there are. */
    method Read(dst: array<Byte>, size: nat) returns (read: nat)
      requires Valid() && dst != buf && Min(size, length) <= dst.Length
      modifies this`readOffset, this`length, dst
      ensures Valid() && read == Min(size, old(length))
      ensures dst[..read] + Contents() == old(Contents())
      ensures forall k | read <= k < dst.Length :: dst[k] == old(dst[k])
    {
      read := if length >= size then size else length;
      length := length - read;
      ghost var left := old(length);
      for i := 0 to read
        invariant length == old(length) - read && left == old(length) - i
        invariant readOffset < SIZE && writeOffset == Slot(readOffset, left)
        invariant dst[..i] + Ring(buf[..], readOffset, left) == old(Contents())
        invariant forall k | i <= k < dst.Length :: dst[k] == old(dst[k])
      {
        ghost var done := dst[..i];
        var b := Pop(left);
        left := left - 1;
        Shift(done, b, Ring(buf[..], readOffset, left));
        dst[i] := b;
        assert dst[..i + 1] == done + [b];
      }
    }

    /** pipe_write: as many of the bytes as there is room for. */
    method Write(src: array<Byte>, size: nat) returns (written: nat)
      requires Valid() && src != buf && Min(size, 4096 - length) <= src.Length
      modifies this`writeOffset, this`length, buf
      ensures Valid() && written == Min(size, 4096 - old(length))
      ensures Contents() == old(Contents()) + src[..written]
    {
      written := if SIZE - length >= size then size else SIZE - length;
      length := length + written;
      for i := 0 to written
        invariant length == old(length) + written && writeOffset == Slot(readOffset, old(length) + i)
        invariant Ring(buf[..], readOffset, old(length) + i) == old(Contents()) + src[..i]
      {
        Push(src[i], old(length) + i);
        assert src[..i + 1] == src[..i] + [src[i]];
      }
    }
  }

  // ----- Any interleaving of reads and writes -----

  datatype Call = ReadCall(size: nat) | WriteCall(data: seq<Byte>)

  /** What a queue of SIZE bytes holds, and all the bytes it ever took and gave. */
  datatype History = History(contents: seq<Byte>, accepted: seq<Byte>, delivered: seq<Byte>)

  /** One call on such a queue: a read gets as much as there is, a write leaves as much as there is room for. */
  ghost function Do(h: History, call: Call): (r: History)
    requires |h.contents| <= SIZE
    ensures |r.contents| <= SIZE
  {
    match call
    case ReadCall(size) =>
      var n := Min(size, |h.contents|);
      History(h.contents[n..], h.accepted, h.delivered + h.contents[..n])
    case WriteCall(data) =>
      var n := Min(|data|, SIZE - |h.contents|);
      History(h.contents + data[..n], h.accepted + data[..n], h.delivered)
  }

  ghost function DoAll(h: History, calls: seq<Call>): (r: History)
    requires |h.contents| <= SIZE
    ensures |r.contents| <= SIZE
    decreases |calls|
  {
    if calls == [] then h else Do(DoAll(h, calls[..|calls| - 1]), calls[|calls| - 1])
  }

  /** pipe_read into a buffer of its own. */
  method Receive(pipe: Pipe, size: nat) returns (bytes: seq<Byte>)
    requires pipe.Valid()
    modifies pipe`readOffset, pipe`length
    ensures pipe.Valid() && |bytes| == Min(size, old(pipe.length))
    ensures bytes + pipe.Contents() == old(pipe.Contents())
  {
    var dst := new Byte[Min(size, pipe.length)](_ => 0);
    var read := pipe.Read(dst, size);
    bytes := dst[..read];
  }

  /** pipe_write from a buffer of its own. */
  method Send(pipe: Pipe, data: seq<Byte>) returns (bytes: seq<Byte>)
    requires pipe.Valid()
    modifies pipe`writeOffset, pipe`length, pipe.buf
    ensures pipe.Valid() && bytes == data[..Min(|data|, SIZE - old(pipe.length))]
    ensures pipe.Contents() == old(pipe.Contents()) + bytes
  {
    var src := new Byte[|data|](i requires 0 <= i < |data| => data[i]);
    assert src[..] == data;
    var written := pipe.Write(src, |data|);
    bytes := src[..written];
  }

  /** The pipe is a first-in-first-out queue of 4096 bytes: whatever the calls, the bytes read are the beginning of
      the bytes accepted, the rest of them is what the ring holds between its offsets, and every call moves as much as
      it can. */
  method Run(pipe: Pipe, calls: seq<Call>) returns (accepted: seq<Byte>, delivered: seq<Byte>)
    requires pipe.Valid() && pipe.Contents() == []
    modifies pipe, pipe.buf
    ensures pipe.Valid() && accepted == delivered + pipe.Contents()
    ensures |pipe.Contents()| == pipe.length <= SIZE
    ensures pipe.writeOffset == (pipe.readOffset + pipe.length) % SIZE
    ensures History(pipe.Contents(), accepted, delivered) == DoAll(History([], [], []), calls)
  {
    accepted, delivered := [], [];
    for i := 0 to |calls|
      invariant pipe.Valid() && accepted == delivered + pipe.Contents()
      invariant History(pipe.Contents(), accepted, delivered) == DoAll(History([], [], []), calls[..i])
    {
      assert calls[..i + 1][..i] == calls[..i];
      match calls[i] {
        case ReadCall(size) =>
          var bytes := Receive(pipe, size);
          delivered := delivered + bytes;
        case WriteCall(data) =>
          var bytes := Send(pipe, data);
          accepted := accepted + bytes;
      }
    }
    assert calls[..|calls|] == calls;
  }
}
