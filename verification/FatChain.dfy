/** fs/fat.c: following the chain of a file through the table, and reading its clusters. */
module FatChain {
  import opened Bytes
  import opened Disks
  import opened FatTable

  /** The entry that ends a chain; the code tests for this value only. */
  function EndOfFile(kind: FatType): int {
    match kind case FAT12 => 0xFFF case FAT16 => 0xFFFF case FAT32 => 0xFFF_FFFF
  }

  /** Whatever lies behind the sector buffer, the entry of `cluster` reads as `next`. */
  ghost predicate Links(fs: Fs, disk: Disk, cluster: int, next: int) {
    forall stray: Byte :: ExtractFatEntry(fs, disk, cluster, stray) == next
  }

  ghost predicate LinkAt(fs: Fs, disk: Disk, chain: seq<int>, i: nat)
    requires i < |chain|
  {
    if i + 1 < |chain| then Links(fs, disk, chain[i], chain[i + 1]) && chain[i + 1] != EndOfFile(fs.kind)
    else Links(fs, disk, chain[i], EndOfFile(fs.kind))
  }

  /** The clusters of a file, each entry naming the next cluster and the last one the end mark. */
  ghost predicate Chain(fs: Fs, disk: Disk, chain: seq<int>) {
    chain != [] && forall i: nat {:trigger LinkAt(fs, disk, chain, i)} | i < |chain| :: LinkAt(fs, disk, chain, i)
  }

  // ----- A chain ends before its length can wrap -----

  lemma EntryRange(fs: Fs, disk: Disk, cluster: int, stray: Byte)
    ensures 0 <= ExtractFatEntry(fs, disk, cluster, stray) < 0x1000_0000
  {
  }

  lemma NextAt(fs: Fs, disk: Disk, chain: seq<int>, i: nat)
    requires Chain(fs, disk, chain) && i < |chain|
    ensures Links(fs, disk, chain[i], After(fs, chain, i))
    ensures ExtractFatEntry(fs, disk, chain[i], 0) == After(fs, chain, i)
    ensures i + 1 < |chain| ==> chain[i + 1] != EndOfFile(fs.kind)
  {
    assert LinkAt(fs, disk, chain, i);
  }

  /** A chain that ends visits no cluster twice: the second visit would lead to the end as soon as the first. */
  lemma {:induction false} ChainIsAcyclic(fs: Fs, disk: Disk, chain: seq<int>, i: nat, j: nat)
    requires Chain(fs, disk, chain) && i < j < |chain|
    ensures chain[i] != chain[j]
    decreases |chain| - j
  {
    NextAt(fs, disk, chain, i);
    NextAt(fs, disk, chain, j);
    if j + 1 < |chain| {
      ChainIsAcyclic(fs, disk, chain, i + 1, j + 1);
    }
  }

  lemma {:induction false} Pigeons(s: seq<int>, n: nat)
    requires forall i | 0 <= i < |s| :: 0 <= s[i] < n
    requires forall i, j | 0 <= i < j < |s| :: s[i] != s[j]
    ensures |s| <= n
  {
    if s != [] {
      assert 0 <= s[0] < n;
      if k :| 0 <= k < |s| && s[k] == n - 1 {
        var t := s[..k] + s[k + 1..];
        assert forall i | 0 <= i < |t| :: t[i] == s[if i < k then i else i + 1];
        Pigeons(t, n - 1);
      } else {
        Pigeons(s, n - 1);
      }
    }
  }

  lemma ChainIsShort(fs: Fs, disk: Disk, chain: seq<int>)
    requires Chain(fs, disk, chain)
    ensures |chain| <= 0x1000_0001
  {
    var tail := chain[1..];
    forall i | 0 <= i < |tail| ensures 0 <= tail[i] < 0x1000_0000 {
      NextAt(fs, disk, chain, i);
      EntryRange(fs, disk, chain[i], 0);
    }
    forall i, j | 0 <= i < j < |tail| ensures tail[i] != tail[j] {
      ChainIsAcyclic(fs, disk, chain, i + 1, j + 1);
    }
    Pigeons(tail, 0x1000_0000);
  }

  // ----- Chains as the specification packs them -----

  /** Entry `n` from its nibble `from` on has ones in all bits that count; the last nibble of FAT32 does not. */
  ghost predicate AllOnes(kind: FatType, entries: Entries, n: int, from: nat) {
    forall k | from <= k < (match kind case FAT12 => 3 case FAT16 => 4 case FAT32 => 7) :: entries(n, k) == 15
  }

  /** The mark the code looks for is the entry of all ones. */
  lemma OnesEndChain(kind: FatType, entries: Entries, n: int)
    ensures Value(kind, entries, n) == EndOfFile(kind) <==> AllOnes(kind, entries, n, 0)
  {
    if Value(kind, entries, n) == EndOfFile(kind) {
      assert entries(n, 0) == 15 && entries(n, 1) == 15 && entries(n, 2) == 15;
    }
  }

  /** The entry the specification wants for the chain's cluster `i`: the number of its next cluster, or all ones. */
  ghost predicate Packs(fs: Fs, entries: Entries, chain: seq<int>, i: nat)
    requires i < |chain|
  {
    && DataCluster(fs, chain[i]) && !Straddles(fs, chain[i])
    && if i + 1 < |chain| then Value(fs.kind, entries, chain[i]) == chain[i + 1]
       else AllOnes(fs.kind, entries, chain[i], 0)
  }

  /** Whatever the type of the volume, the entry read is the entry packed. */
  lemma ReadsPacked(bpb: Bpb, disk: Disk, entries: Entries, cluster: int, stray: Byte)
    requires bpb.Valid() && Consistent(bpb) && TableHolds(Init(bpb), disk, entries)
    requires DataCluster(Init(bpb), cluster) && !Straddles(Init(bpb), cluster)
    ensures ExtractFatEntry(Init(bpb), disk, cluster, stray) == Value(Init(bpb).kind, entries, cluster)
  {
    LayoutFits(bpb);
    LookupStaysInTable(bpb, cluster);
    match Init(bpb).kind
    case FAT12 => Reads12(Init(bpb), disk, entries, cluster, stray);
    case FAT16 => Reads16(Init(bpb), disk, entries, cluster, stray);
    case FAT32 => Reads32(Init(bpb), disk, entries, cluster, stray);
  }

  /** No data cluster has the number that marks the end. */
  lemma DataIsNotEnd(bpb: Bpb, cluster: int)
    requires bpb.Valid() && Consistent(bpb) && DataCluster(Init(bpb), cluster)
    ensures cluster != EndOfFile(Init(bpb).kind)
  {
  }

  /** A file whose clusters the table packs by the specification, none straddling two sectors, is a chain to the
      code. */
  lemma PackedChain(bpb: Bpb, disk: Disk, entries: Entries, chain: seq<int>)
    requires bpb.Valid() && Consistent(bpb) && TableHolds(Init(bpb), disk, entries)
    requires chain != [] && forall i: nat {:trigger Packs(Init(bpb), entries, chain, i)} | i < |chain| ::
                              Packs(Init(bpb), entries, chain, i)
    ensures Chain(Init(bpb), disk, chain)
  {
    var fs := Init(bpb);
    forall i: nat | i < |chain| ensures LinkAt(fs, disk, chain, i) {
      assert Packs(fs, entries, chain, i);
      OnesEndChain(fs.kind, entries, chain[i]);
      forall stray: Byte ensures ExtractFatEntry(fs, disk, chain[i], stray) == After(fs, chain, i) {
        ReadsPacked(bpb, disk, entries, chain[i], stray);
      }
      if i + 1 < |chain| {
        assert Packs(fs, entries, chain, i + 1);
        DataIsNotEnd(bpb, chain[i + 1]);
      }
    }
  }

  /** Its contents come from sectors of the data region, and no two of its clusters share one. */
  lemma PackedChainApart(bpb: Bpb, disk: Disk, entries: Entries, chain: seq<int>, i: nat, j: nat)
    requires bpb.Valid() && Consistent(bpb) && TableHolds(Init(bpb), disk, entries) && i < j < |chain|
    requires forall k: nat {:trigger Packs(Init(bpb), entries, chain, k)} | k < |chain| ::
               Packs(Init(bpb), entries, chain, k)
    ensures var fs := Init(bpb); var a, b := ClusterStart(fs, chain[i]), ClusterStart(fs, chain[j]);
      && (a + fs.secPerClus <= b || b + fs.secPerClus <= a)
      && fs.lbaStart + fs.firstDataSec <= a && a + fs.secPerClus <= fs.lbaStart + fs.totSecs
      && fs.lbaStart + fs.firstDataSec <= b && b + fs.secPerClus <= fs.lbaStart + fs.totSecs
  {
    PackedChain(bpb, disk, entries, chain);
    ChainIsAcyclic(Init(bpb), disk, chain, i, j);
    assert Packs(Init(bpb), entries, chain, i) && Packs(Init(bpb), entries, chain, j);
    ClusterInData(bpb, chain[i]);
    ClusterInData(bpb, chain[j]);
    if chain[i] < chain[j] {
      ClustersApart(bpb, chain[i], chain[j]);
    } else {
      ClustersApart(bpb, chain[j], chain[i]);
    }
  }

  /** What the specification puts in entry 0: the media byte, and ones in all bits above it. */
  ghost predicate MediaEntry(kind: FatType, entries: Entries, media: int) {
    entries(0, 0) == media % 16 && entries(0, 1) == media / 16 && AllOnes(kind, entries, 0, 2)
  }

  /** Read as a cluster number it is the end mark with the media byte for its lowest. */
  lemma MediaValue(kind: FatType, entries: Entries, media: int)
    requires 0 <= media < 0x100 && MediaEntry(kind, entries, media)
    ensures Value(kind, entries, 0) == EndOfFile(kind) - 0xFF + media
  {
  }

  lemma ReadsFirst(bpb: Bpb, disk: Disk, entries: Entries, stray: Byte)
    requires bpb.Valid() && Consistent(bpb) && TableHolds(Init(bpb), disk, entries)
    ensures ExtractFatEntry(Init(bpb), disk, 0, stray) == Value(Init(bpb).kind, entries, 0)
  {
    LayoutFits(bpb);
    assert InTable(Init(bpb), 0) && !Straddles(Init(bpb), 0);
    match Init(bpb).kind
    case FAT12 => Reads12(Init(bpb), disk, entries, 0, stray);
    case FAT16 => Reads16(Init(bpb), disk, entries, 0, stray);
    case FAT32 => Reads32(Init(bpb), disk, entries, 0, stray);
  }

  /** An empty file has first cluster 0, which is no data cluster. For a fixed disk, its entry is neither the end mark
      nor the number of a data cluster: the code follows it out of the volume. */
  lemma EmptyFileLeavesVolume(bpb: Bpb, disk: Disk, entries: Entries, media: int, stray: Byte)
    requires bpb.Valid() && Consistent(bpb) && TableHolds(Init(bpb), disk, entries) && 0xF8 <= media < 0xFF
    requires MediaEntry(Init(bpb).kind, entries, media)
    requires Init(bpb).countOfClus + 2 <= 0xFFF_FFF7
    ensures !DataCluster(Init(bpb), 0)
    ensures var next := ExtractFatEntry(Init(bpb), disk, 0, stray);
            next != EndOfFile(Init(bpb).kind) && !DataCluster(Init(bpb), next)
  {
    MediaValue(Init(bpb).kind, entries, media);
    ReadsFirst(bpb, disk, entries, stray);
  }

  /** extract_fat_entry, with whatever lies behind its buffer. */
  method NextCluster(fs: Fs, disk: Disk, cluster: int, ghost next: int) returns (entry: int)
    requires Links(fs, disk, cluster, next)
    ensures entry == next
  {
    var stray: Byte :| 0 <= stray < 0x100;
    entry := ExtractFatEntry(fs, disk, cluster, stray);
  }

  /** The entry of the chain's cluster `i`. */
  ghost function After(fs: Fs, chain: seq<int>, i: nat): int {
    if i + 1 < |chain| then chain[i + 1] else EndOfFile(fs.kind)
  }

  /** compute_cluster_chain_length: every chain is counted to its end. */
  method ComputeClusterChainLength(fs: Fs, disk: Disk, cluster: int, ghost chain: seq<int>) returns (chainLength: int)
    requires Chain(fs, disk, chain) && chain[0] == cluster
    ensures chainLength == |chain|
  {
    ChainIsShort(fs, disk, chain);
    chainLength := 0;
    var cluster, end := cluster, false;
    while !end
      invariant 0 <= chainLength <= |chain| && (end <==> chainLength == |chain|)
      invariant !end ==> cluster == chain[chainLength]
      decreases |chain| - chainLength
    {
      NextAt(fs, disk, chain, chainLength);
      cluster := NextCluster(fs, disk, cluster, After(fs, chain, chainLength));
      chainLength := W(chainLength + 1);
      end := cluster == EndOfFile(fs.kind);
    }
  }

  // ----- Cluster contents -----

  /** `count` consecutive sectors. */
  ghost function Sectors(disk: Disk, start: int, count: nat): (r: seq<Byte>)
    ensures |r| == SECTOR * count
  {
    if count == 0 then [] else Sectors(disk, start, count - 1) + disk(W(start + count - 1))
  }

  /** Bytes in a cluster. */
  function ClusterSize(fs: Fs): int { fs.secPerClus * SECTOR }

  ghost function ClusterBytes(fs: Fs, disk: Disk, cluster: int): (r: seq<Byte>)
    requires 0 < fs.secPerClus
    ensures |r| == ClusterSize(fs)
  {
    Sectors(disk, ClusterStart(fs, cluster), fs.secPerClus)
  }

  lemma OneMore(n: int, size: int)
    ensures n * size + size == (n + 1) * size
  {
  }

  /** The contents of the clusters, one after the other. */
  ghost function Contents(fs: Fs, disk: Disk, clusters: seq<int>): (r: seq<Byte>)
    requires 0 < fs.secPerClus
    ensures |r| == |clusters| * ClusterSize(fs)
  {
    if clusters == [] then []
    else
      OneMore(|clusters| - 1, ClusterSize(fs));
      Contents(fs, disk, clusters[..|clusters| - 1]) + ClusterBytes(fs, disk, clusters[|clusters| - 1])
  }

  lemma {:induction false} SectorsAt(disk: Disk, start: int, count: nat, j: nat, b: nat)
    requires j < count && b < 512
    ensures 512 * j + b < |Sectors(disk, start, count)|
    ensures Sectors(disk, start, count)[512 * j + b] == disk(W(start + j))[b]
  {
    if j < count - 1 {
      SectorsAt(disk, start, count - 1, j, b);
    }
  }

  lemma {:induction false} ContentsSlice(fs: Fs, disk: Disk, clusters: seq<int>, i: nat, at: int)
    requires 0 < fs.secPerClus && i < |clusters| && at == i * ClusterSize(fs)
    ensures 0 <= at && at + ClusterSize(fs) <= |Contents(fs, disk, clusters)|
    ensures Contents(fs, disk, clusters)[at..at + ClusterSize(fs)] == ClusterBytes(fs, disk, clusters[i])
  {
    var size, front := ClusterSize(fs), clusters[..|clusters| - 1];
    OneMore(|clusters| - 1, size);
    MulLe(0, i, size);
    if i < |clusters| - 1 {
      ContentsSlice(fs, disk, front, i, at);
      assert Contents(fs, disk, clusters)[..|Contents(fs, disk, front)|] == Contents(fs, disk, front);
    }
  }

  /** Byte `b` of sector `j` of the chain's cluster `i`. */
  lemma ContentsAt(fs: Fs, disk: Disk, clusters: seq<int>, i: nat, at: int, j: nat, b: nat)
    requires 0 < fs.secPerClus && i < |clusters| && at == i * (fs.secPerClus * 512)
    requires j < fs.secPerClus && b < 512
    ensures 0 <= at && at + 512 * j + b < |Contents(fs, disk, clusters)|
    ensures Contents(fs, disk, clusters)[at + 512 * j + b] == disk(W(ClusterStart(fs, clusters[i]) + j))[b]
  {
    ContentsSlice(fs, disk, clusters, i, at);
    SectorsAt(disk, ClusterStart(fs, clusters[i]), fs.secPerClus, j, b);
    assert Contents(fs, disk, clusters)[at..at + ClusterSize(fs)][512 * j + b] ==
      Contents(fs, disk, clusters)[at + 512 * j + b];
  }

  /** pio_read_sector into a buffer, behind what it holds so far. */
  method PioReadSector(disk: Disk, buf: array<Byte>, at: nat, lba: int)
    requires at + SECTOR <= buf.Length
    modifies buf
    ensures buf[..at + SECTOR] == old(buf[..at]) + disk(lba)
    ensures forall i | at + SECTOR <= i < buf.Length :: buf[i] == old(buf[i])
  {
    var sector := disk(lba);
    forall i | 0 <= i < SECTOR {
      buf[at + i] := sector[i];
    }
  }

  /** read_cluster */
  method ReadCluster(fs: Fs, disk: Disk, buf: array<Byte>, at: nat, cluster: int)
    requires 0 < fs.secPerClus && at + ClusterSize(fs) <= buf.Length
    modifies buf
    ensures buf[..at + ClusterSize(fs)] == old(buf[..at]) + ClusterBytes(fs, disk, cluster)
    ensures forall i | at + ClusterSize(fs) <= i < buf.Length :: buf[i] == old(buf[i])
  {
    var start := ClusterStart(fs, cluster);
    for i := 0 to fs.secPerClus
      invariant buf[..at + SECTOR * i] == old(buf[..at]) + Sectors(disk, start, i)
      invariant forall k | at + SECTOR * i <= k < buf.Length :: buf[k] == old(buf[k])
    {
      ghost var done := Sectors(disk, start, i);
      PioReadSector(disk, buf, at + SECTOR * i, W(start + i));
      assert old(buf[..at]) + done + disk(W(start + i)) == old(buf[..at]) + (done + disk(W(start + i)));
    }
  }

  /** How many clusters of a chain of `n` are left from cluster `offset` on and fit in the buffer. */
  ghost function Fitting(fs: Fs, n: int, offset: int, bufsize: int): nat
    requires 0 < fs.secPerClus && 0 <= bufsize
  {
    if n <= offset then 0 else Min(n - offset, bufsize / ClusterSize(fs))
  }

  ghost function Slice(chain: seq<int>, from: nat, count: nat): seq<int> {
    if from + count <= |chain| then chain[from..from + count] else []
  }

  lemma FullBuffer(fs: Fs, bufsize: int, k: nat)
    requires 0 < fs.secPerClus && ClusterSize(fs) * k <= bufsize < ClusterSize(fs) * k + ClusterSize(fs)
    ensures bufsize / ClusterSize(fs) == k
  {
    ModIs(bufsize, ClusterSize(fs), k, bufsize - ClusterSize(fs) * k);
  }

  lemma RoomyBuffer(fs: Fs, bufsize: int, k: nat)
    requires 0 < fs.secPerClus && ClusterSize(fs) * k <= bufsize
    ensures k <= bufsize / ClusterSize(fs)
  {
    if bufsize / ClusterSize(fs) + 1 <= k {
      MulLe(bufsize / ClusterSize(fs) + 1, k, ClusterSize(fs));
      assert false;
    }
  }

  /** The test before each cluster stops a read exactly when it would not fit. */
  ghost predicate TestRight(fs: Fs, bufsize: int, readSize: int) {
    bufsize < W(readSize + ClusterSize(fs)) <==> bufsize < readSize + ClusterSize(fs)
  }

  /** One cluster more than the buffer has room for still makes a 32-bit number of bytes. */
  predicate NoWrap(fs: Fs, bufsize: int)
    requires 0 < fs.secPerClus
  {
    (bufsize / ClusterSize(fs) + 1) * ClusterSize(fs) < U32
  }

  /** That test is computed in 32 bits. It is right after every number of whole clusters exactly when one cluster more
      than the buffer has room for does not wrap. */
  lemma OverflowTestExact(fs: Fs, bufsize: int)
    requires 0 < fs.secPerClus < 0x100 && 0 <= bufsize < U32
    ensures (forall k: nat | ClusterSize(fs) * k <= bufsize :: TestRight(fs, bufsize, ClusterSize(fs) * k)) <==>
            NoWrap(fs, bufsize)
  {
    var most := bufsize / ClusterSize(fs);
    DivBounds(bufsize, ClusterSize(fs));
    if NoWrap(fs, bufsize) {
      forall k: nat | ClusterSize(fs) * k <= bufsize ensures TestRight(fs, bufsize, ClusterSize(fs) * k) {
        RightBelow(fs, bufsize, k);
      }
    } else {
      LastTest(fs, bufsize, most);
      assert !TestRight(fs, bufsize, ClusterSize(fs) * most);
    }
  }

  lemma RightBelow(fs: Fs, bufsize: int, k: nat)
    requires 0 < fs.secPerClus < 0x100 && 0 <= bufsize < U32 && NoWrap(fs, bufsize) && ClusterSize(fs) * k <= bufsize
    ensures TestRight(fs, bufsize, ClusterSize(fs) * k)
  {
    RoomyBuffer(fs, bufsize, k);
    OneMore(k, ClusterSize(fs));
    MulLe(k + 1, bufsize / ClusterSize(fs) + 1, ClusterSize(fs));
  }

  lemma DivBounds(x: int, d: int)
    requires d > 0
    ensures d * (x / d) <= x < d * (x / d) + d
  {
  }

  /** With the buffer full up to its last cluster, the test lets one more cluster through exactly when its sum wraps. */
  lemma LastTest(fs: Fs, bufsize: int, k: nat)
    requires 0 < fs.secPerClus < 0x100 && 0 <= bufsize < U32
    requires ClusterSize(fs) * k <= bufsize < ClusterSize(fs) * k + ClusterSize(fs)
    ensures bufsize < W(ClusterSize(fs) * k + ClusterSize(fs)) <==> NoWrap(fs, bufsize)
  {
    FullBuffer(fs, bufsize, k);
    var sum := ClusterSize(fs) * k + ClusterSize(fs);
    assert sum == (k + 1) * ClusterSize(fs);
    if sum >= U32 {
      ModIs(sum, U32, 1, sum - U32);
    }
  }

  /** A buffer of 2^32 - 1 bytes and clusters of one sector: full but for 511 bytes, it is given another cluster. */
  lemma OverflowTestWraps(fs: Fs)
    requires fs.secPerClus == 1
    ensures !NoWrap(fs, 0xFFFF_FFFF) && !TestRight(fs, 0xFFFF_FFFF, 0xFFFF_FE00)
  {
  }

  /** How far read_cluster_chain has come: `pos` clusters passed, those behind the offset read. */
  ghost predicate Reading(fs: Fs, disk: Disk, chain: seq<int>, offset: nat, pos: nat, skip: int, data: seq<Byte>)
    requires 0 < fs.secPerClus
  {
    && pos <= |chain|
    && skip == (if pos < offset then offset - pos else 0)
    && |data| == ClusterSize(fs) * (if pos < offset then 0 else pos - offset)
    && (pos >= offset ==> data == Contents(fs, disk, chain[offset..pos]))
  }

  lemma ReadingNext(fs: Fs, disk: Disk, chain: seq<int>, offset: nat, pos: nat, data: seq<Byte>)
    requires 0 < fs.secPerClus && pos < |chain| && Reading(fs, disk, chain, offset, pos, 0, data)
    ensures Reading(fs, disk, chain, offset, pos + 1, 0, data + ClusterBytes(fs, disk, chain[pos]))
  {
    assert chain[offset..pos + 1][..pos - offset] == chain[offset..pos];
  }

  lemma ReadingDone(fs: Fs, disk: Disk, chain: seq<int>, offset: nat, pos: nat, skip: int, data: seq<Byte>,
                    bufsize: int)
    requires 0 < fs.secPerClus && Reading(fs, disk, chain, offset, pos, skip, data) && |data| <= bufsize
    requires pos == |chain| || bufsize < |data| + ClusterSize(fs)
    ensures |data| == ClusterSize(fs) * Fitting(fs, |chain|, offset, bufsize)
    ensures data == Contents(fs, disk, Slice(chain, offset, Fitting(fs, |chain|, offset, bufsize)))
  {
    var k := if pos < offset then 0 else pos - offset;
    if bufsize < |data| + ClusterSize(fs) {
      FullBuffer(fs, bufsize, k);
    } else {
      RoomyBuffer(fs, bufsize, k);
    }
    assert Fitting(fs, |chain|, offset, bufsize) == k;
  }

  /** Whether the read stays inside the buffer: the chain ends before it is full, or the test that stops the read does
      not wrap. */
  ghost predicate StaysInside(fs: Fs, n: int, offset: int, bufsize: int)
    requires 0 < fs.secPerClus
  {
    n <= offset + bufsize / ClusterSize(fs) || NoWrap(fs, bufsize)
  }

  lemma ReadingStays(fs: Fs, disk: Disk, chain: seq<int>, offset: nat, pos: nat, skip: int, data: seq<Byte>,
                     bufsize: int)
    requires 0 < fs.secPerClus < 0x100 && 0 <= bufsize < U32
    requires Reading(fs, disk, chain, offset, pos, skip, data) && |data| <= bufsize
    requires pos == |chain| || bufsize < W(|data| + ClusterSize(fs))
    ensures StaysInside(fs, |chain|, offset, bufsize)
    ensures pos == |chain| || bufsize < |data| + ClusterSize(fs)
  {
    var k := if pos < offset then 0 else pos - offset;
    if pos == |chain| {
      RoomyBuffer(fs, bufsize, k);
    } else if bufsize < |data| + ClusterSize(fs) {
      LastTest(fs, bufsize, k);
    }
  }

  lemma ReadingEnds(fs: Fs, disk: Disk, chain: seq<int>, offset: nat, pos: nat, skip: int, data: seq<Byte>,
                    bufsize: int)
    requires 0 < fs.secPerClus < 0x100 && 0 <= bufsize < U32
    requires Reading(fs, disk, chain, offset, pos, skip, data) && |data| <= bufsize
    requires pos == |chain| || bufsize < W(|data| + ClusterSize(fs))
    ensures StaysInside(fs, |chain|, offset, bufsize)
    ensures |data| == ClusterSize(fs) * Fitting(fs, |chain|, offset, bufsize)
    ensures data == Contents(fs, disk, Slice(chain, offset, Fitting(fs, |chain|, offset, bufsize)))
  {
    ReadingStays(fs, disk, chain, offset, pos, skip, data, bufsize);
    ReadingDone(fs, disk, chain, offset, pos, skip, data, bufsize);
  }

  lemma ReadingLeaves(fs: Fs, disk: Disk, chain: seq<int>, offset: nat, pos: nat, data: seq<Byte>, bufsize: int)
    requires 0 < fs.secPerClus < 0x100 && 0 <= bufsize < U32 && pos < |chain|
    requires Reading(fs, disk, chain, offset, pos, 0, data) && |data| <= bufsize
    requires W(|data| + ClusterSize(fs)) <= bufsize < |data| + ClusterSize(fs)
    ensures !StaysInside(fs, |chain|, offset, bufsize)
  {
    LastTest(fs, bufsize, pos - offset);
    FullBuffer(fs, bufsize, pos - offset);
  }

  /** One more cluster goes into the buffer. */
  method ReadNext(fs: Fs, disk: Disk, buf: array<Byte>, bufsize: int, readSize: nat, cluster: int,
                  ghost chain: seq<int>, ghost offset: nat, ghost pos: nat) returns (after: nat)
    requires 0 < fs.secPerClus && bufsize <= buf.Length && bufsize < U32 && readSize + ClusterSize(fs) <= bufsize
    requires pos < |chain| && cluster == chain[pos] && Reading(fs, disk, chain, offset, pos, 0, buf[..readSize])
    modifies buf
    ensures readSize <= after <= bufsize && Reading(fs, disk, chain, offset, pos + 1, 0, buf[..after])
    ensures forall i | after <= i < buf.Length :: buf[i] == old(buf[i])
  {
    ReadingNext(fs, disk, chain, offset, pos, buf[..readSize]);
    ReadCluster(fs, disk, buf, readSize, cluster);
    after := W(readSize + ClusterSize(fs));
  }

  /** read_cluster_chain: from cluster `clusterOffset` of the chain on, as many clusters as the buffer holds whole.
      `ok` is false where the test for a full buffer has wrapped, and the code goes on to read a cluster past the
      buffer's end. */
  method ReadClusterChain(fs: Fs, disk: Disk, buf: array<Byte>, bufsize: int, cluster: int, clusterOffset: nat,
                          ghost chain: seq<int>) returns (readSize: nat, ok: bool)
    requires Chain(fs, disk, chain) && chain[0] == cluster
    requires 0 < fs.secPerClus < 0x100 && 0 <= bufsize <= buf.Length && bufsize < U32
    modifies buf
    ensures ok <==> StaysInside(fs, |chain|, clusterOffset, bufsize)
    ensures ok ==> readSize <= bufsize && readSize == ClusterSize(fs) * Fitting(fs, |chain|, clusterOffset, bufsize)
    ensures ok ==> buf[..readSize] ==
                   Contents(fs, disk, Slice(chain, clusterOffset, Fitting(fs, |chain|, clusterOffset, bufsize)))
    ensures ok ==> forall i | readSize <= i < buf.Length :: buf[i] == old(buf[i])
  {
    readSize, ok := 0, true;
    var cluster, skip, end := cluster, clusterOffset, false;
    ghost var pos := 0;
    while !end
      invariant readSize <= bufsize && Reading(fs, disk, chain, clusterOffset, pos, skip, buf[..readSize])
      invariant end <==> pos == |chain|
      invariant !end ==> cluster == chain[pos]
      invariant forall i | readSize <= i < buf.Length :: buf[i] == old(buf[i])
      decreases |chain| - pos
    {
      if bufsize < W(readSize + ClusterSize(fs)) {
        break;
      }
      if skip == 0 {
        if bufsize < readSize + ClusterSize(fs) {
          ReadingLeaves(fs, disk, chain, clusterOffset, pos, buf[..readSize], bufsize);
          return readSize, false;
        }
        readSize := ReadNext(fs, disk, buf, bufsize, readSize, cluster, chain, clusterOffset, pos);
      } else {
        skip := skip - 1;
      }
      NextAt(fs, disk, chain, pos);
      cluster := NextCluster(fs, disk, cluster, After(fs, chain, pos));
      pos := pos + 1;
      end := cluster == EndOfFile(fs.kind);
    }
    ReadingEnds(fs, disk, chain, clusterOffset, pos, skip, buf[..readSize], bufsize);
  }
}
