/** fs/fs_generic.c: an open file is a buffer with all of its clusters and a position in it. */
module FatFile {
  import opened Bytes
  import opened Disks
  import opened FatTable
  import opened FatChain

  /** What the directory says of a file. */
  datatype File = File(firstCluster: int, fileSize: int)

  /** Turns of a 32-bit variable make no difference. */
  lemma WrapTwice(a: int, b: int)
    requires b >= 0
    ensures W(W(a) * b) == W(a * b)
  {
    var turns, r := a / U32, a % U32;
    assert a * b == (turns * b) * U32 + r * b;
    ModIs(a * b, U32, turns * b + r * b / U32, r * b % U32);
  }

  /** computer_needed_buf_size: the length of the chain in bytes, as a 32-bit number. */
  method NeededBufSize(fs: Fs, disk: Disk, file: File, ghost chain: seq<int>) returns (size: int)
    requires Chain(fs, disk, chain) && chain[0] == file.firstCluster && 0 < fs.secPerClus
    ensures size == W(|chain| * ClusterSize(fs))
  {
    var length := ComputeClusterChainLength(fs, disk, file.firstCluster, chain);
    assert length * fs.secPerClus * SECTOR == length * ClusterSize(fs);
    WrapTwice(length * fs.secPerClus, SECTOR);
    size := W(W(length * fs.secPerClus) * SECTOR);
  }

  /** fatfs_readfile; `ok` is that of read_cluster_chain. */
  method Readfile(fs: Fs, disk: Disk, file: File, buf: array<Byte>, bufsize: int, ghost chain: seq<int>)
    returns (readSize: nat, ok: bool)
    requires Chain(fs, disk, chain) && chain[0] == file.firstCluster
    requires 0 < fs.secPerClus < 0x100 && 0 <= bufsize <= buf.Length && bufsize < U32
    modifies buf
    ensures ok <==> bufsize < file.fileSize || StaysInside(fs, |chain|, 0, bufsize)
    ensures ok ==> readSize <= bufsize
    ensures ok ==> readSize == if bufsize < file.fileSize then 0 else ClusterSize(fs) * Fitting(fs, |chain|, 0, bufsize)
    ensures ok && readSize > 0 ==>
              buf[..readSize] == Contents(fs, disk, Slice(chain, 0, Fitting(fs, |chain|, 0, bufsize)))
    ensures ok ==> forall i | readSize <= i < buf.Length :: buf[i] == old(buf[i])
  {
    if bufsize < file.fileSize {
      return 0, true;
    }
    readSize, ok := ReadClusterChain(fs, disk, buf, bufsize, file.firstCluster, 0, chain);
  }

  /** What fat_open finds of a chain of `n` clusters that needs `bufsize` bytes in 32 bits: it reads as many clusters
      as there are whole ones in that number. */
  lemma OpenSize(fs: Fs, n: nat, bufsize: int)
    requires 0 < fs.secPerClus < 0x100 && n > 0 && bufsize == W(n * ClusterSize(fs))
    ensures Fitting(fs, n, 0, bufsize) == bufsize / ClusterSize(fs) <= n
    ensures ClusterSize(fs) * (bufsize / ClusterSize(fs)) == bufsize <==> bufsize % ClusterSize(fs) == 0
    ensures n * ClusterSize(fs) < U32 ==>
              bufsize / ClusterSize(fs) == n && bufsize % ClusterSize(fs) == 0 && bufsize > 0
  {
    var size := ClusterSize(fs);
    MulLe(0, n, size);
    DivBounds(bufsize, size);
    if bufsize / size > n {
      MulLe(n + 1, bufsize / size, size);
      assert false;
    }
    if n * size < U32 {
      MulLe(1, n, size);
      ModIs(bufsize, size, n, 0);
    }
  }

  // ----- Reading and seeking -----

  const I63 := 0x8000_0000_0000_0000

  /** What a signed 64-bit variable keeps of `x`. */
  function Signed(x: int): (r: int)
    ensures -I63 <= r < I63
    ensures -I63 <= x < I63 ==> r == x
  {
    var y := x % U64;
    if y < I63 then y else y - U64
  }

  /** How much fat_read copies: offset and size are added and subtracted as unsigned 64-bit numbers. */
  function CopySize(fileSize: int, offset: int, size: int): (n: int)
    requires 0 <= size
    ensures 0 <= n
  {
    if (offset + size) % U64 > fileSize then (fileSize - offset) % U64 else size
  }

  /** `n` bytes from `offset` on are all in a buffer of `length` bytes. */
  predicate Inside(length: int, offset: int, n: int) { n == 0 || (0 <= offset && offset + n <= length) }

  /** What is left of the file at most. */
  function ReadSize(fileSize: int, offset: int, size: int): int {
    if offset + size > fileSize then fileSize - offset else size
  }

  /** A file in a buffer, and a position that may be anywhere. */
  predicate Sizes(fileSize: int, length: int, offset: int) {
    0 <= fileSize <= length && fileSize < U32 && length < I63 && -I63 <= offset < I63
  }

  /** One read copies from within the buffer exactly when the position is in the file and the 64-bit sum does not
      wrap; and then it copies what is left of the file at most. */
  lemma ReadStaysInside(fileSize: int, length: int, offset: int, size: int)
    requires Sizes(fileSize, length, offset) && 0 <= size < U64
    ensures Inside(length, offset, CopySize(fileSize, offset, size)) <==>
            0 <= offset <= fileSize && offset + size < U64
    ensures 0 <= offset <= fileSize && offset + size < U64 ==>
            CopySize(fileSize, offset, size) == ReadSize(fileSize, offset, size)
  {
  }

  ghost predicate ReadsStayInside(fileSize: int, length: int, offset: int) {
    forall size | 0 <= size < I63 :: Inside(length, offset, CopySize(fileSize, offset, size))
  }

  /** Reads of every size that their result can tell copy from within the buffer exactly when the position is in the
      file. */
  lemma PositionIsSafe(fileSize: int, length: int, offset: int)
    requires Sizes(fileSize, length, offset)
    ensures ReadsStayInside(fileSize, length, offset) <==> 0 <= offset <= fileSize
  {
    ReadStaysInside(fileSize, length, offset, 0);
    if 0 <= offset <= fileSize {
      forall size | 0 <= size < I63 ensures Inside(length, offset, CopySize(fileSize, offset, size)) {
        ReadStaysInside(fileSize, length, offset, size);
      }
    }
  }

  datatype Whence = SeekSet | SeekCur | SeekEnd

  /** Where fat_lseek goes. */
  function SeekTarget(fileSize: int, offset: int, to: int, whence: Whence): int {
    match whence
    case SeekSet => to
    case SeekCur => Signed(offset + to)
    case SeekEnd => Signed(fileSize + to)
  }

  /** After a seek to one byte behind the file, every read leaves the buffer. */
  lemma SeekBehindFile(fileSize: int, length: int, offset: int, size: int)
    requires Sizes(fileSize, length, offset) && 0 <= size < U64
    ensures var at := SeekTarget(fileSize, offset, fileSize + 1, SeekSet);
            !Inside(length, at, CopySize(fileSize, at, size))
  {
    ReadStaysInside(fileSize, length, fileSize + 1, size);
  }

  /** memcpy of `n` bytes from offset `at`. */
  method Memcpy(dst: array<Byte>, src: array<Byte>, at: nat, n: nat)
    requires dst != src && n <= dst.Length && at + n <= src.Length
    modifies dst
    ensures dst[..n] == src[at..at + n]
    ensures forall i | n <= i < dst.Length :: dst[i] == old(dst[i])
  {
    for i := 0 to n
      invariant dst[..i] == src[at..at + i]
      invariant forall k | i <= k < dst.Length :: dst[k] == old(dst[k])
    {
      dst[i] := src[at + i];
    }
  }

  /** fat_context_t */
  class FatContext {
    const fileSize: int
    const buf: array<Byte>
    var offset: int

    /** The buffer holds the file; the position may be anywhere. */
    predicate Valid()
      reads this
    {
      Sizes(fileSize, buf.Length, offset)
    }

    ghost predicate InFile()
      reads this
    {
      Valid() && 0 <= offset <= fileSize
    }

    constructor (fileSize: int, buf: array<Byte>)
      ensures this.fileSize == fileSize && this.buf == buf && offset == 0
    {
      this.fileSize, this.buf, offset := fileSize, buf, 0;
    }

    /** fat_read: the next `size` bytes, or what is left of the file. `ok` is false where the memcpy leaves the
        buffer. */
    method Read(dst: array<Byte>, size: int) returns (read: nat, ok: bool)
      requires Valid() && 0 <= size < U64 && dst != buf
      requires 0 <= offset <= fileSize ==> ReadSize(fileSize, offset, size) <= dst.Length
      modifies this`offset, dst
      ensures ok <==> 0 <= old(offset) <= fileSize && old(offset) + size < U64
      ensures ok ==> InFile() && read == ReadSize(fileSize, old(offset), size) && offset == old(offset) + read
      ensures ok ==> dst[..read] == buf[old(offset)..offset]
      ensures ok ==> forall i | read <= i < dst.Length :: dst[i] == old(dst[i])
    {
      ReadStaysInside(fileSize, buf.Length, offset, size);
      var size := size;
      if (offset + size) % U64 > fileSize {
        size := (fileSize - offset) % U64;
      }
      if !Inside(buf.Length, offset, size) {
        return 0, false;
      }
      Memcpy(dst, buf, offset, size);
      offset := Signed(offset + size);
      return size, true;
    }

    /** fat_lseek. Nothing keeps the position within the file: reads of every size then stay inside the buffer exactly
        when the position asked for is within it. */
    method Lseek(to: int, whence: Whence) returns (position: int)
      requires Valid() && -I63 <= to < I63
      modifies this`offset
      ensures Valid() && position == offset == SeekTarget(fileSize, old(offset), to, whence)
      ensures ReadsStayInside(fileSize, buf.Length, offset) <==>
              0 <= SeekTarget(fileSize, old(offset), to, whence) <= fileSize
    {
      match whence {
        case SeekSet => offset := to;
        case SeekCur => offset := Signed(offset + to);
        case SeekEnd => offset := Signed(fileSize + to);
      }
      PositionIsSafe(fileSize, buf.Length, offset);
      position := offset;
    }
  }

  /** How opening a file ends whose chain needs `bufsize` bytes in 32 bits: `opened` when the size test passes, and then
      `content` is in the buffer. */
  ghost predicate Opens(fs: Fs, disk: Disk, file: File, chain: seq<int>, bufsize: int, ok: bool, passed: bool,
                        content: seq<Byte>)
    requires 0 < fs.secPerClus && 0 <= bufsize
  {
    && (ok <==> bufsize < file.fileSize || StaysInside(fs, |chain|, 0, bufsize))
    && (ok ==> (passed <==> bufsize == 0 || (file.fileSize <= bufsize && bufsize % ClusterSize(fs) == 0)))
    && (ok && passed ==> content == Contents(fs, disk, Slice(chain, 0, bufsize / ClusterSize(fs))))
  }

  /** For a chain below 2^32 bytes all is well: the test passes exactly when the directory's file size is not larger
      than the chain, and then the buffer holds the chain. */
  lemma OpensWhole(fs: Fs, disk: Disk, file: File, chain: seq<int>, ok: bool, passed: bool, content: seq<Byte>)
    requires 0 < fs.secPerClus < 0x100 && chain != [] && |chain| * ClusterSize(fs) < U32
    requires 0 <= |chain| * ClusterSize(fs)
    requires Opens(fs, disk, file, chain, |chain| * ClusterSize(fs), ok, passed, content)
    ensures ok && (passed <==> file.fileSize <= |chain| * ClusterSize(fs))
    ensures passed ==> content == Contents(fs, disk, chain)
  {
    OpenSize(fs, |chain|, |chain| * ClusterSize(fs));
    assert Slice(chain, 0, |chain|) == chain;
  }

  /** A chain of a multiple of 2^32 bytes passes the test with an empty buffer. */
  lemma OpensEmpty(fs: Fs, disk: Disk, file: File, chain: seq<int>, ok: bool, passed: bool, content: seq<Byte>)
    requires 0 < fs.secPerClus < 0x100 && chain != [] && W(|chain| * ClusterSize(fs)) == 0
    requires Opens(fs, disk, file, chain, W(|chain| * ClusterSize(fs)), ok, passed, content)
    ensures ok && passed && content == []
  {
  }

  lemma OpensAs(fs: Fs, disk: Disk, file: File, chain: seq<int>, bufsize: int, ok: bool, ret: nat, buf: seq<Byte>)
    requires 0 < fs.secPerClus < 0x100 && chain != [] && bufsize == W(|chain| * ClusterSize(fs)) == |buf|
    requires ok <==> bufsize < file.fileSize || StaysInside(fs, |chain|, 0, bufsize)
    requires ok ==> ret <= bufsize
    requires ok ==> ret == if bufsize < file.fileSize then 0 else ClusterSize(fs) * Fitting(fs, |chain|, 0, bufsize)
    requires ok && ret > 0 ==> buf[..ret] == Contents(fs, disk, Slice(chain, 0, Fitting(fs, |chain|, 0, bufsize)))
    ensures Opens(fs, disk, file, chain, bufsize, ok, ok && ret == bufsize, buf)
  {
    OpenSize(fs, |chain|, bufsize);
    if ok && ret == bufsize {
      assert buf[..ret] == buf;
    }
  }

  /** fat_open once the file is found: NULL where the size test fails, and `ok` false where the read leaves the
      buffer. */
  method Open(fs: Fs, disk: Disk, file: File, ghost chain: seq<int>) returns (context: FatContext?, ok: bool)
    requires Chain(fs, disk, chain) && chain[0] == file.firstCluster && 0 <= file.fileSize < U32
    requires 0 < fs.secPerClus < 0x100
    ensures Opens(fs, disk, file, chain, W(|chain| * ClusterSize(fs)), ok, context != null,
                  if context == null then [] else context.buf[..])
    ensures context != null ==> && fresh(context) && fresh(context.buf) && context.offset == 0
                                && context.fileSize == file.fileSize && context.buf.Length < U32
  {
    var bufsize := NeededBufSize(fs, disk, file, chain);
    var buf := new Byte[bufsize](_ => 0);
    var ret;
    ret, ok := Readfile(fs, disk, file, buf, bufsize, chain);
    OpensAs(fs, disk, file, chain, bufsize, ok, ret, buf[..]);
    if !ok || ret != bufsize {
      return null, ok;
    }
    context := new FatContext(file.fileSize, buf);
  }

  // ----- Reading a file piece by piece -----

  ghost function Sum(sizes: seq<nat>): nat {
    if sizes == [] then 0 else sizes[0] + Sum(sizes[1..])
  }

  /** fat_read into a buffer of its own. */
  method Receive(context: FatContext, size: nat) returns (bytes: seq<Byte>)
    requires context.InFile() && size < I63
    modifies context`offset
    ensures context.InFile() && context.offset == Min(old(context.offset) + size, context.fileSize)
    ensures bytes == context.buf[old(context.offset)..context.offset]
  {
    var dst := new Byte[Min(size, context.fileSize)](_ => 0);
    var read, ok := context.Read(dst, size);
    bytes := dst[..read];
  }

  /** However the reads are cut, together they are the file up to where they end, and never go past its size. */
  method ReadPieces(context: FatContext, sizes: seq<nat>) returns (bytes: seq<Byte>)
    requires context.InFile() && forall size | size in sizes :: size < I63
    modifies context`offset
    ensures context.InFile() && context.offset == Min(old(context.offset) + Sum(sizes), context.fileSize)
    ensures bytes == context.buf[old(context.offset)..context.offset]
    decreases |sizes|
  {
    bytes := [];
    if sizes != [] {
      assert sizes[0] in sizes && forall size | size in sizes[1..] :: size in sizes;
      var first := Receive(context, sizes[0]);
      var rest := ReadPieces(context, sizes[1..]);
      bytes := first + rest;
    }
  }

  /** A seek to a place in the file, from its beginning, from the position, or from its end, and a read: the bytes from
      there on. */
  method SeekAndRead(context: FatContext, to: int, whence: Whence, size: nat)
    returns (bytes: seq<Byte>, ghost from: nat)
    requires context.Valid() && -I63 <= to < I63 && size < I63
    requires whence.SeekSet? ==> 0 <= to <= context.fileSize
    requires whence.SeekCur? ==> 0 <= context.offset + to <= context.fileSize
    requires whence.SeekEnd? ==> 0 <= context.fileSize + to <= context.fileSize
    modifies context`offset
    ensures whence.SeekSet? ==> from == to
    ensures whence.SeekCur? ==> from == old(context.offset) + to
    ensures whence.SeekEnd? ==> from == context.fileSize + to
    ensures context.InFile() && from <= context.offset == Min(from + size, context.fileSize)
    ensures bytes == context.buf[from..context.offset]
  {
    var position := context.Lseek(to, whence);
    from := position;
    bytes := Receive(context, size);
  }

  lemma {:induction false} ContentsPrefix(fs: Fs, disk: Disk, chain: seq<int>, k: nat)
    requires 0 < fs.secPerClus && k <= |chain|
    ensures Contents(fs, disk, chain[..k]) <= Contents(fs, disk, chain)
    decreases |chain|
  {
    if k < |chain| {
      ContentsPrefix(fs, disk, chain[..|chain| - 1], k);
      assert chain[..|chain| - 1][..k] == chain[..k];
    } else {
      assert chain[..k] == chain;
    }
  }

  /** What is in the buffer of an open file is the beginning of its chain. */
  lemma OpensPrefix(fs: Fs, disk: Disk, file: File, chain: seq<int>, content: seq<Byte>)
    requires 0 < fs.secPerClus < 0x100 && chain != []
    requires Opens(fs, disk, file, chain, W(|chain| * ClusterSize(fs)), true, true, content)
    ensures content <= Contents(fs, disk, chain)
  {
    OpenSize(fs, |chain|, W(|chain| * ClusterSize(fs)));
    ContentsPrefix(fs, disk, chain, W(|chain| * ClusterSize(fs)) / ClusterSize(fs));
  }

  /** The file can be opened and read: its size in the directory is within the chain's, which is taken modulo 2^32, and
      reading the chain stays inside a buffer of that size and fills it. */
  ghost predicate Readable(fs: Fs, file: File, n: nat, bufsize: int)
    requires 0 < fs.secPerClus && 0 <= bufsize
  {
    file.fileSize <= bufsize && StaysInside(fs, n, 0, bufsize) && (bufsize == 0 || bufsize % ClusterSize(fs) == 0)
  }

  lemma ReadableBelow(fs: Fs, file: File, n: nat)
    requires 0 < fs.secPerClus < 0x100 && n > 0 && 0 <= n * ClusterSize(fs) < U32
    ensures Readable(fs, file, n, n * ClusterSize(fs)) <==> file.fileSize <= n * ClusterSize(fs)
  {
    OpenSize(fs, n, n * ClusterSize(fs));
  }

  /** fat_open and a sequence of fat_read calls: together they yield the first bytes of the clusters of the chain, as
      many as asked for, or the whole file. */
  method OpenAndRead(fs: Fs, disk: Disk, file: File, sizes: seq<nat>, ghost chain: seq<int>)
    returns (found: bool, bytes: seq<Byte>)
    requires Chain(fs, disk, chain) && chain[0] == file.firstCluster && 0 <= file.fileSize < U32
    requires 0 < fs.secPerClus < 0x100 && forall size | size in sizes :: size < I63
    ensures found <==> Readable(fs, file, |chain|, W(|chain| * ClusterSize(fs)))
    ensures found ==> file.fileSize <= |Contents(fs, disk, chain)|
    ensures found ==> bytes == Contents(fs, disk, chain)[..Min(Sum(sizes), file.fileSize)]
  {
    var context, ok := Open(fs, disk, file, chain);
    found, bytes := ok && context != null && file.fileSize <= context.buf.Length, [];
    OpenedSize(fs, disk, file, chain, ok, context != null, if context == null then [] else context.buf[..]);
    if found {
      OpensPrefix(fs, disk, file, chain, context.buf[..]);
      bytes := ReadPieces(context, sizes);
    }
  }

  /** A file is open with all of its bytes in the buffer exactly when it is readable. */
  lemma OpenedSize(fs: Fs, disk: Disk, file: File, chain: seq<int>, ok: bool, passed: bool, content: seq<Byte>)
    requires 0 < fs.secPerClus < 0x100 && chain != [] && 0 <= file.fileSize
    requires Opens(fs, disk, file, chain, W(|chain| * ClusterSize(fs)), ok, passed, content)
    ensures ok && passed && file.fileSize <= |content| <==> Readable(fs, file, |chain|, W(|chain| * ClusterSize(fs)))
  {
    OpenSize(fs, |chain|, W(|chain| * ClusterSize(fs)));
  }
}
