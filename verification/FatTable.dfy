/** The disk as pio_read_sector shows it. */
module Disks {
  import opened Bytes

  const SECTOR := 512

  type Sector = s: seq<Byte> | |s| == SECTOR witness seq(SECTOR, _ => 0)

  /** Every logical block address names a sector. */
  type Disk = int -> Sector
}

/** fs/fat.c: the geometry of a volume (fatfs_init) and the entries of its file allocation table. */
module FatTable {
  import opened Bytes
  import opened Disks

  datatype FatType = FAT12 | FAT16 | FAT32

  /** The fields of the BIOS parameter block that fatfs_init uses; it asserts 512 bytes per sector. */
  datatype Bpb = Bpb(secPerClus: int, rsvdSecCnt: int, numFats: int, rootEntCnt: int, totSec16: int, fatSz16: int,
                     totSec32: int, fatSz32: int)
  {
    predicate Valid() {
      && 0 < secPerClus < 0x100 && 0 < rsvdSecCnt < 0x1_0000 && 0 < numFats < 0x100
      && 0 <= rootEntCnt < 0x1_0000 && 0 <= totSec16 < 0x1_0000 && 0 <= fatSz16 < 0x1_0000
      && 0 <= totSec32 < U32 && 0 <= fatSz32 < U32
    }
  }

  datatype Fs = Fs(kind: FatType, lbaStart: int, secPerClus: int, rootDirSecs: int, fatSecs: int, totSecs: int,
                   dataSecs: int, countOfClus: int, firstFatSec: int, firstDataSec: int)

  /** fatfs_init */
  function Init(bpb: Bpb): Fs
    requires bpb.Valid()
  {
    var rootDirSecs := (bpb.rootEntCnt * 32 + SECTOR - 1) / SECTOR;
    var fatSecs := if bpb.fatSz16 != 0 then bpb.fatSz16 else bpb.fatSz32;
    var totSecs := if bpb.totSec16 != 0 then bpb.totSec16 else bpb.totSec32;
    var dataSecs := W(totSecs - W(bpb.rsvdSecCnt + bpb.numFats * fatSecs + rootDirSecs));
    var countOfClus := dataSecs / bpb.secPerClus;
    var kind := if countOfClus < 4085 then FAT12 else if countOfClus < 65525 then FAT16 else FAT32;
    Fs(kind, 2048, bpb.secPerClus, rootDirSecs, fatSecs, totSecs, dataSecs, countOfClus, bpb.rsvdSecCnt,
       W(bpb.rsvdSecCnt + W(bpb.numFats * fatSecs + rootDirSecs)))
  }

  /** compute_fat_for_cluster: the byte offset in the table, the sector it is in, and the offset in that sector. */
  function FatOffset(kind: FatType, cluster: int): int {
    match kind
    case FAT12 => W(cluster + cluster / 2)
    case FAT16 => W(cluster * 2)
    case FAT32 => W(cluster * 4)
  }

  function SecOff(fs: Fs, fatIndex: int, cluster: int): int {
    W(fs.firstFatSec + FatOffset(fs.kind, cluster) / SECTOR + fatIndex * fs.fatSecs)
  }

  function EntryOff(fs: Fs, cluster: int): (r: int)
    ensures 0 <= r < SECTOR
  {
    FatOffset(fs.kind, cluster) % SECTOR
  }

  /** Byte `k` of the entry in the sector buffer, or what lies behind the buffer. */
  function EntryByte(fs: Fs, disk: Disk, cluster: int, k: nat, stray: Byte): int {
    if EntryOff(fs, cluster) + k < SECTOR
    then disk(W(SecOff(fs, 0, cluster) + fs.lbaStart))[EntryOff(fs, cluster) + k]
    else stray
  }

  function Decode12(cluster: int, b0: int, b1: int): int {
    if cluster % 2 == 1 then (b0 + 0x100 * b1) / 0x10 else (b0 + 0x100 * b1) % 0x1000
  }

  function Decode32(b0: int, b1: int, b2: int, b3: int): int {
    (b0 + 0x100 * b1 + 0x1_0000 * b2 + 0x100_0000 * b3) % 0x1000_0000
  }

  /** extract_fat_entry. Only one sector is read, so a two-byte load at offset 511 takes its high byte from whatever
      follows the buffer: `stray`. */
  function ExtractFatEntry(fs: Fs, disk: Disk, cluster: int, stray: Byte): int {
    var b0, b1 := EntryByte(fs, disk, cluster, 0, stray), EntryByte(fs, disk, cluster, 1, stray);
    match fs.kind
    case FAT12 => Decode12(cluster, b0, b1)
    case FAT16 => b0 + 0x100 * b1
    case FAT32 => Decode32(b0, b1, EntryByte(fs, disk, cluster, 2, stray), EntryByte(fs, disk, cluster, 3, stray))
  }

  /** Entries of 16 and 32 bits never straddle two sectors. */
  lemma AlignedFour(cluster: int)
    ensures W(cluster * 4) % SECTOR <= 508
    ensures W(cluster * 2) % SECTOR <= 510
  {
    WrapMultiple(cluster, 4, 0x4000_0000);
    WrapMultiple(cluster, 2, 0x8000_0000);
    MultipleInSector(cluster % 0x4000_0000, 4, 128);
    MultipleInSector(cluster % 0x8000_0000, 2, 256);
  }

  lemma WrapMultiple(x: int, k: int, m: int)
    requires k > 0 && m > 0 && k * m == U32
    ensures W(x * k) == (x % m) * k
  {
    var q, r := x / m, x % m;
    assert x * k == q * (m * k) + r * k;
    assert r * k <= (m - 1) * k;
    ModIs(x * k, U32, q, r * k);
  }

  lemma MultipleInSector(x: int, k: int, m: int)
    requires k > 0 && m > 0 && k * m == SECTOR
    ensures (x * k) % SECTOR == (x % m) * k <= SECTOR - k
  {
    var q, r := x / m, x % m;
    assert x * k == q * (m * k) + r * k;
    assert r * k <= (m - 1) * k;
    ModIs(x * k, SECTOR, q, r * k);
  }

  lemma MulLe(a: int, b: int, d: int)
    requires a <= b && d >= 0
    ensures a * d <= b * d
  {
  }

  lemma AtLeast(a: int, d: int)
    requires a >= 1 && d > 0
    ensures a * d >= d
  {
  }

  lemma ModIs(x: int, d: int, q: int, r: int)
    requires x == q * d + r && 0 <= r < d
    ensures x % d == r && x / d == q
  {
    var other := x / d - q;
    assert other * d == r - x % d;
    if other >= 1 {
      AtLeast(other, d);
      assert false;
    }
    if -other >= 1 {
      AtLeast(-other, d);
      assert false;
    }
  }

  // ----- What the specification packs -----

  type Nibble = n: int | 0 <= n < 16

  /** Entry `n` of a table is its nibbles `entries(n, 0)`, `entries(n, 1)`, ..., the low one first. */
  type Entries = (int, int) -> Nibble

  /** Nibbles to an entry. */
  function Width(kind: FatType): int {
    match kind case FAT12 => 3 case FAT16 => 4 case FAT32 => 8
  }

  ghost function Low12(entries: Entries, n: int): int {
    entries(n, 0) + 0x10 * entries(n, 1) + 0x100 * entries(n, 2)
  }

  ghost function Low28(entries: Entries, n: int): int {
    Low12(entries, n) + 0x1000 * (entries(n, 3) + 0x10 * entries(n, 4) + 0x100 * entries(n, 5) + 0x1000 * entries(n, 6))
  }

  /** The value of an entry: of the eight nibbles of FAT32 the last one is reserved. */
  ghost function Value(kind: FatType, entries: Entries, n: int): int {
    match kind
    case FAT12 => Low12(entries, n)
    case FAT16 => Low12(entries, n) + 0x1000 * entries(n, 3)
    case FAT32 => Low28(entries, n)
  }

  /** Entries follow one another without gaps. */
  ghost function PackedNibble(entries: Entries, width: int, k: int): Nibble
    requires width > 0
  {
    entries(k / width, k % width)
  }

  /** Two nibbles make a byte, the low one first. */
  ghost function PackedByte(entries: Entries, width: int, i: int): Byte
    requires width > 0
  {
    PackedNibble(entries, width, 2 * i) + 16 * PackedNibble(entries, width, 2 * i + 1)
  }

  /** Byte `i` of the first file allocation table on the disk. */
  ghost function TableByte(fs: Fs, disk: Disk, i: int): Byte {
    disk(W(W(fs.firstFatSec + i / SECTOR) + fs.lbaStart))[i % SECTOR]
  }

  /** The first table holds `entries` in the packing of the specification. */
  ghost predicate TableHolds(fs: Fs, disk: Disk, entries: Entries) {
    forall i | 0 <= i < SECTOR * fs.fatSecs :: TableByte(fs, disk, i) == PackedByte(entries, Width(fs.kind), i)
  }

  // ----- Reading entries back -----

  /** The volume lies within 32-bit block addresses. */
  predicate Addressable(fs: Fs) {
    0 <= fs.lbaStart && 0 <= fs.firstFatSec && 0 <= fs.fatSecs && fs.lbaStart + fs.firstFatSec + fs.fatSecs < U32
  }

  /** The whole entry of `cluster` is in the first table, and cluster numbers have at most 28 bits. */
  predicate InTable(fs: Fs, cluster: int) {
    0 <= cluster < 0x1000_0000 && (cluster + 1) * Width(fs.kind) <= 2 * SECTOR * fs.fatSecs
  }

  /** The load needs a byte of the next sector. */
  predicate Straddles(fs: Fs, cluster: int) {
    fs.kind == FAT12 && EntryOff(fs, cluster) == SECTOR - 1
  }

  lemma NibbleAt(entries: Entries, width: int, n: int, i: int, k: int)
    requires 0 <= i < width && k == width * n + i
    ensures PackedNibble(entries, width, k) == entries(n, i)
  {
    ModIs(k, width, n, i);
  }

  /** No cluster number of the table makes the offset wrap. */
  lemma OffsetIs(fs: Fs, cluster: int)
    requires InTable(fs, cluster)
    ensures FatOffset(fs.kind, cluster) == if fs.kind == FAT12 then cluster + cluster / 2
                                           else cluster * (Width(fs.kind) / 2)
  {
  }

  lemma EntryByteIsPacked(fs: Fs, disk: Disk, entries: Entries, cluster: int, k: nat, stray: Byte, width: int, i: int)
    requires Addressable(fs) && TableHolds(fs, disk, entries)
    requires width == Width(fs.kind) && i == FatOffset(fs.kind, cluster) + k
    requires i < SECTOR * fs.fatSecs && EntryOff(fs, cluster) + k < SECTOR
    ensures EntryByte(fs, disk, cluster, k, stray) == PackedByte(entries, width, i)
  {
  }

  /** Byte `k` of the packed entry `n`, when entries are whole bytes. */
  lemma PackedWhole(entries: Entries, half: int, n: int, k: nat, at: int)
    requires k < half && at == n * half + k
    ensures PackedByte(entries, 2 * half, at) == entries(n, 2 * k) + 16 * entries(n, 2 * k + 1)
  {
    NibbleAt(entries, 2 * half, n, 2 * k, 2 * at);
    NibbleAt(entries, 2 * half, n, 2 * k + 1, 2 * at + 1);
  }

  lemma WholeByte(fs: Fs, disk: Disk, entries: Entries, cluster: int, k: nat, stray: Byte)
    requires Addressable(fs) && InTable(fs, cluster) && TableHolds(fs, disk, entries)
    requires fs.kind != FAT12 && 2 * k < Width(fs.kind)
    ensures EntryByte(fs, disk, cluster, k, stray) ==
            entries(cluster, 2 * k) + 16 * entries(cluster, 2 * k + 1)
  {
    AlignedFour(cluster);
    OffsetIs(fs, cluster);
    var half := Width(fs.kind) / 2;
    EntryByteIsPacked(fs, disk, entries, cluster, k, stray, 2 * half, cluster * half + k);
    PackedWhole(entries, half, cluster, k, cluster * half + k);
  }

  /** FAT16: the entry read is the entry packed. */
  lemma Reads16(fs: Fs, disk: Disk, entries: Entries, cluster: int, stray: Byte)
    requires Addressable(fs) && InTable(fs, cluster) && TableHolds(fs, disk, entries)
    requires fs.kind == FAT16
    ensures ExtractFatEntry(fs, disk, cluster, stray) == Value(fs.kind, entries, cluster)
  {
    WholeByte(fs, disk, entries, cluster, 0, stray);
    WholeByte(fs, disk, entries, cluster, 1, stray);
  }

  /** FAT32: the entry read is the entry packed without its four reserved bits. */
  lemma Reads32(fs: Fs, disk: Disk, entries: Entries, cluster: int, stray: Byte)
    requires Addressable(fs) && InTable(fs, cluster) && TableHolds(fs, disk, entries)
    requires fs.kind == FAT32
    ensures ExtractFatEntry(fs, disk, cluster, stray) == Value(FAT32, entries, cluster)
  {
    WholeByte(fs, disk, entries, cluster, 0, stray);
    WholeByte(fs, disk, entries, cluster, 1, stray);
    WholeByte(fs, disk, entries, cluster, 2, stray);
    WholeByte(fs, disk, entries, cluster, 3, stray);
    Decodes32(Value(FAT32, entries, cluster), entries(cluster, 7), EntryByte(fs, disk, cluster, 0, stray),
      EntryByte(fs, disk, cluster, 1, stray), EntryByte(fs, disk, cluster, 2, stray),
      EntryByte(fs, disk, cluster, 3, stray));
  }

  lemma Decodes32(v: int, reserved: int, b0: int, b1: int, b2: int, b3: int)
    requires 0 <= v < 0x1000_0000
    requires b0 + 0x100 * b1 + 0x1_0000 * b2 + 0x100_0000 * b3 == 0x1000_0000 * reserved + v
    ensures Decode32(b0, b1, b2, b3) == v
  {
  }

  /** The three bytes that two entries of 12 bits share. */
  lemma PackedEven(entries: Entries, h: int)
    ensures PackedByte(entries, 3, 3 * h) == entries(2 * h, 0) + 16 * entries(2 * h, 1)
    ensures PackedByte(entries, 3, 3 * h + 1) == entries(2 * h, 2) + 16 * entries(2 * h + 1, 0)
    ensures PackedByte(entries, 3, 3 * h + 2) == entries(2 * h + 1, 1) + 16 * entries(2 * h + 1, 2)
  {
  }

  /** Both bytes of a 12-bit entry are in the table at three bytes for two entries. */
  lemma Bytes12(fs: Fs, disk: Disk, entries: Entries, cluster: int, k: nat, at: int, stray: Byte)
    requires Addressable(fs) && InTable(fs, cluster) && TableHolds(fs, disk, entries)
    requires fs.kind == FAT12 && !Straddles(fs, cluster) && k <= 1 && at == 3 * (cluster / 2) + cluster % 2 + k
    ensures EntryByte(fs, disk, cluster, k, stray) == PackedByte(entries, 3, at)
  {
  }

  lemma Reads12(fs: Fs, disk: Disk, entries: Entries, cluster: int, stray: Byte)
    requires Addressable(fs) && InTable(fs, cluster) && TableHolds(fs, disk, entries)
    requires fs.kind == FAT12 && !Straddles(fs, cluster)
    ensures ExtractFatEntry(fs, disk, cluster, stray) == Value(fs.kind, entries, cluster)
  {
    var h := cluster / 2;
    var b0, b1 := EntryByte(fs, disk, cluster, 0, stray), EntryByte(fs, disk, cluster, 1, stray);
    PackedEven(entries, h);
    if cluster % 2 == 0 {
      Bytes12(fs, disk, entries, cluster, 0, 3 * h, stray);
      Bytes12(fs, disk, entries, cluster, 1, 3 * h + 1, stray);
      DecodesEven(cluster, b0, b1, Low12(entries, cluster), entries(cluster + 1, 0));
    } else {
      Bytes12(fs, disk, entries, cluster, 0, 3 * h + 1, stray);
      Bytes12(fs, disk, entries, cluster, 1, 3 * h + 2, stray);
      DecodesOdd(cluster, b0, b1, Low12(entries, cluster), entries(cluster - 1, 2));
    }
  }

  /** The entry below a neighbour's nibble. */
  lemma DecodesEven(cluster: int, b0: int, b1: int, v: int, after: int)
    requires cluster % 2 == 0 && 0 <= v < 0x1000 && b0 + 0x100 * b1 == 0x1000 * after + v
    ensures Decode12(cluster, b0, b1) == v
  {
  }

  /** The entry above a neighbour's nibble. */
  lemma DecodesOdd(cluster: int, b0: int, b1: int, v: int, before: int)
    requires cluster % 2 == 1 && 0 <= before < 0x10 && b0 + 0x100 * b1 == 0x10 * v + before
    ensures Decode12(cluster, b0, b1) == v
  {
  }

  /** FAT12: the entry read is the entry packed, whatever lies behind the sector buffer, exactly when the entry does not
      straddle two sectors. */
  lemma Reads12Exactly(fs: Fs, disk: Disk, entries: Entries, cluster: int)
    requires Addressable(fs) && InTable(fs, cluster) && TableHolds(fs, disk, entries)
    requires fs.kind == FAT12
    ensures (forall stray: Byte :: ExtractFatEntry(fs, disk, cluster, stray) == Value(fs.kind, entries, cluster)) <==>
            !Straddles(fs, cluster)
  {
    if Straddles(fs, cluster) {
      assert ExtractFatEntry(fs, disk, cluster, 0) != ExtractFatEntry(fs, disk, cluster, 1);
    } else {
      forall stray: Byte ensures ExtractFatEntry(fs, disk, cluster, stray) == Value(fs.kind, entries, cluster) {
        Reads12(fs, disk, entries, cluster, stray);
      }
    }
  }

  /** The first cluster whose entry straddles two sectors: what follows the sector buffer decides what is read. */
  lemma Cluster341Straddles(fs: Fs, disk: Disk)
    requires fs.kind == FAT12
    ensures EntryOff(fs, 341) == 511 && Straddles(fs, 341)
    ensures ExtractFatEntry(fs, disk, 341, 0) != ExtractFatEntry(fs, disk, 341, 1)
  {
  }

  // ----- The layout -----

  /** What the specification asks of a volume: its regions fit in its sectors, and its table has an entry for every
      cluster. */
  predicate Consistent(bpb: Bpb)
    requires bpb.Valid()
  {
    var fs := Init(bpb);
    && bpb.rsvdSecCnt + bpb.numFats * fs.fatSecs + fs.rootDirSecs <= fs.totSecs
    && fs.lbaStart + fs.totSecs < U32
    && (fs.countOfClus + 2) * Width(fs.kind) <= 2 * SECTOR * fs.fatSecs
    && fs.countOfClus + 2 < 0x1000_0000
  }

  /** The numbers of the clusters that hold data. */
  predicate DataCluster(fs: Fs, cluster: int) {
    2 <= cluster < fs.countOfClus + 2
  }

  /** read_cluster: the first block of a cluster. */
  function ClusterStart(fs: Fs, cluster: int): int {
    W(fs.lbaStart + fs.firstDataSec + (cluster - 2) * fs.secPerClus)
  }

  /** Under the computed layout no sum wraps and the regions follow one another. */
  lemma LayoutFits(bpb: Bpb)
    requires bpb.Valid() && Consistent(bpb)
    ensures Addressable(Init(bpb))
    ensures Init(bpb).firstFatSec + bpb.numFats * Init(bpb).fatSecs + Init(bpb).rootDirSecs == Init(bpb).firstDataSec
    ensures Init(bpb).firstDataSec + Init(bpb).dataSecs == Init(bpb).totSecs
    ensures Init(bpb).countOfClus * Init(bpb).secPerClus <= Init(bpb).dataSecs
    ensures Init(bpb).firstFatSec + Init(bpb).fatSecs <= Init(bpb).firstDataSec
  {
    var fs := Init(bpb);
    MulLe(1, bpb.numFats, fs.fatSecs);
  }

  /** The geometry of a volume in the specification's terms: what is used of the parameter block; a root directory of as
      many sectors as its entries of 32 bytes need; as many clusters as fit in what is left of the volume; and the type,
      which the number of clusters alone decides: FAT12 below 4085 clusters, FAT32 from 65525 clusters on. */
  lemma Geometry(bpb: Bpb)
    requires bpb.Valid() && Consistent(bpb)
    ensures var fs := Init(bpb);
      && fs.lbaStart == 2048 && fs.firstFatSec == bpb.rsvdSecCnt && fs.secPerClus == bpb.secPerClus
      && (if bpb.fatSz16 == 0 then fs.fatSecs == bpb.fatSz32 else fs.fatSecs == bpb.fatSz16)
      && (if bpb.totSec16 == 0 then fs.totSecs == bpb.totSec32 else fs.totSecs == bpb.totSec16)
      && 32 * bpb.rootEntCnt <= 512 * fs.rootDirSecs < 32 * bpb.rootEntCnt + 512
    ensures var fs := Init(bpb);
      var data := fs.totSecs - (bpb.rsvdSecCnt + bpb.numFats * fs.fatSecs + fs.rootDirSecs);
      && fs.countOfClus * bpb.secPerClus <= data < fs.countOfClus * bpb.secPerClus + bpb.secPerClus
      && (fs.kind == FAT12 <==> data < 4085 * bpb.secPerClus)
      && (fs.kind == FAT32 <==> data >= 65525 * bpb.secPerClus)
  {
    var fs := Init(bpb);
    LayoutFits(bpb);
    CountAgainst(fs.dataSecs, bpb.secPerClus, 4085);
    CountAgainst(fs.dataSecs, bpb.secPerClus, 65525);
  }

  /** A quotient is below a bound exactly when the dividend is below that many times the divisor. */
  lemma CountAgainst(x: int, d: int, bound: int)
    requires 0 <= x && 0 < d
    ensures x / d < bound <==> x < bound * d
    ensures x / d * d <= x < x / d * d + d
  {
    if x / d < bound {
      MulLe(x / d + 1, bound, d);
    } else {
      MulLe(bound, x / d, d);
    }
  }

  /** Every entry of a data cluster lies in the first table, and its lookup reads a sector of that table. */
  lemma LookupStaysInTable(bpb: Bpb, cluster: int)
    requires bpb.Valid() && Consistent(bpb) && DataCluster(Init(bpb), cluster)
    ensures InTable(Init(bpb), cluster)
    ensures Init(bpb).firstFatSec <= SecOff(Init(bpb), 0, cluster) < Init(bpb).firstFatSec + Init(bpb).fatSecs
  {
  }

  /** The lookup in another copy of the table reads the same sector of that copy. */
  lemma LookupInCopy(bpb: Bpb, cluster: int, copy: nat)
    requires bpb.Valid() && Consistent(bpb) && DataCluster(Init(bpb), cluster) && copy < bpb.numFats
    ensures SecOff(Init(bpb), copy, cluster) == SecOff(Init(bpb), 0, cluster) + copy * Init(bpb).fatSecs
    ensures (copy + 1) * Init(bpb).fatSecs <= bpb.numFats * Init(bpb).fatSecs
  {
    var fs := Init(bpb);
    LookupStaysInTable(bpb, cluster);
    CopiesFit(fs.firstFatSec, FatOffset(fs.kind, cluster) / SECTOR, copy, bpb.numFats, fs.fatSecs);
  }

  lemma CopiesFit(first: int, at: int, copy: nat, count: int, size: int)
    requires copy < count && 0 <= first && 0 <= at && 0 <= size && first + count * size < U32
    requires first <= W(first + at + 0 * size) < first + size
    requires 0 <= at < U32 / SECTOR
    ensures W(first + at + copy * size) == W(first + at + 0 * size) + copy * size
    ensures (copy + 1) * size <= count * size
  {
    MulLe(0, copy, size);
    MulLe(copy + 1, count, size);
    MulLe(1, count, size);
  }

  lemma StartIs(fs: Fs, cluster: int)
    requires DataCluster(fs, cluster) && 0 < fs.secPerClus && 0 <= fs.lbaStart && 0 <= fs.firstDataSec
    requires fs.lbaStart + fs.firstDataSec + fs.countOfClus * fs.secPerClus < U32
    ensures ClusterStart(fs, cluster) == fs.lbaStart + fs.firstDataSec + (cluster - 2) * fs.secPerClus
    ensures 0 <= (cluster - 2) * fs.secPerClus && (cluster - 1) * fs.secPerClus <= fs.countOfClus * fs.secPerClus
    ensures (cluster - 1) * fs.secPerClus == (cluster - 2) * fs.secPerClus + fs.secPerClus
  {
    MulLe(0, cluster - 2, fs.secPerClus);
    MulLe(cluster - 1, fs.countOfClus, fs.secPerClus);
  }

  /** The blocks of a data cluster lie in the data region, behind every table. */
  lemma ClusterInData(bpb: Bpb, cluster: int)
    requires bpb.Valid() && Consistent(bpb) && DataCluster(Init(bpb), cluster)
    ensures Init(bpb).lbaStart + Init(bpb).firstDataSec <= ClusterStart(Init(bpb), cluster)
    ensures ClusterStart(Init(bpb), cluster) + Init(bpb).secPerClus <= Init(bpb).lbaStart + Init(bpb).totSecs
    ensures Init(bpb).lbaStart + Init(bpb).firstFatSec + Init(bpb).fatSecs <= ClusterStart(Init(bpb), cluster)
  {
    LayoutFits(bpb);
    StartIs(Init(bpb), cluster);
  }

  /** Cluster 2 is the first in the data region, and each cluster begins where the one before it ends. */
  lemma ClustersFollow(bpb: Bpb, cluster: int)
    requires bpb.Valid() && Consistent(bpb) && DataCluster(Init(bpb), cluster)
    ensures var fs := Init(bpb);
      if cluster == 2 then ClusterStart(fs, cluster) == fs.lbaStart + fs.firstDataSec
      else ClusterStart(fs, cluster) == ClusterStart(fs, cluster - 1) + bpb.secPerClus
  {
    LayoutFits(bpb);
    StartIs(Init(bpb), cluster);
    if cluster > 2 {
      StartIs(Init(bpb), cluster - 1);
    }
  }

  /** Two data clusters share no block. */
  lemma ClustersApart(bpb: Bpb, c: int, d: int)
    requires bpb.Valid() && Consistent(bpb) && DataCluster(Init(bpb), c) && DataCluster(Init(bpb), d) && c < d
    ensures ClusterStart(Init(bpb), c) + Init(bpb).secPerClus <= ClusterStart(Init(bpb), d)
  {
    LayoutFits(bpb);
    StartIs(Init(bpb), c);
    StartIs(Init(bpb), d);
    MulLe(c - 1, d - 2, Init(bpb).secPerClus);
  }
}
