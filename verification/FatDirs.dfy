/** fs/fat.c: going through a directory with fatfs_readdir. */
module FatDirs {
  import opened Bytes
  import opened FatNames
  import opened Strings

  const ENTRY := 32
  const NAME_SIZE := 256

  /** What a directory lists of a file: FATFile_Type without its dates. */
  datatype Info = Info(name: seq<Byte>, kind: int, firstCluster: int, fileSize: int)

  /** One file of a directory, which may be deleted: its long name, or none, and its short entry. */
  datatype Group = Group(long: seq<int>, short: DirEntry)
  {
    predicate Deleted() { short[0] == FREE }

    /** The name that it is listed under. */
    ghost function Name(): seq<Byte>
      requires long == [] || LongName(long)
    {
      if long == [] then ShortName(short) else Coding.EncodeAll(Seen(long, Deleted()))
    }

    /** That name and a zero fit in file_info. */
    ghost predicate Fits() {
      (long == [] || LongName(long)) && |Name()| < 256
    }

    /** The number of its entries. */
    ghost function Length(): nat {
      if long == [] then 1 else EntriesFor(|long|) + 1
    }
  }

  function Long32(e: DirEntry, at: nat): int
    requires at < 29
  {
    Word(e, at) + 0x1_0000 * Word(e, at + 2)
  }

  /** DIR_FstClusHI << 16 | DIR_FstClusLO */
  function FirstCluster(e: DirEntry): int {
    Word(e, 20) * 0x1_0000 + Word(e, 26)
  }

  function InfoOf(name: seq<Byte>, short: DirEntry): Info {
    Info(name, Attr(short), FirstCluster(short), Long32(short, 28))
  }

  /** A short entry as the specification stores it: the attributes at 11, the high half of the first cluster at 20, its
      low half at 26, and the size in the last four bytes, each number lowest byte first. */
  ghost predicate ShortEntry(e: DirEntry, attr: int, cluster: int, size: int) {
    && 0 <= cluster < U32 && 0 <= size < U32
    && e[11] == attr
    && e[20] == cluster / 0x1_0000 % 0x100 && e[21] == cluster / 0x100_0000
    && e[26] == cluster % 0x100 && e[27] == cluster / 0x100 % 0x100
    && e[28] == size % 0x100 && e[29] == size / 0x100 % 0x100
    && e[30] == size / 0x1_0000 % 0x100 && e[31] == size / 0x100_0000
  }

  /** The bytes of a number of 32 bits. */
  lemma FourBytes(x: int)
    requires 0 <= x < U32
    ensures x == x % 0x100 + 0x100 * (x / 0x100 % 0x100)
                 + 0x1_0000 * (x / 0x1_0000 % 0x100) + 0x100_0000 * (x / 0x100_0000)
  {
    assert x / 0x1_0000 == x / 0x100 / 0x100 && x / 0x100_0000 == x / 0x1_0000 / 0x100;
  }

  /** Every first cluster and every size of 32 bits is taken over, and so are the attributes. */
  lemma ShortEntryInfo(e: DirEntry, attr: int, cluster: int, size: int, name: seq<Byte>)
    requires ShortEntry(e, attr, cluster, size)
    ensures InfoOf(name, e) == Info(name, attr, cluster, size)
  {
    FourBytes(cluster);
    FourBytes(size);
  }

  /** Where the `i`th group begins. */
  ghost function Start(groups: seq<Group>, i: nat): nat
    requires i <= |groups|
  {
    if i == 0 then 0 else Start(groups, i - 1) + groups[i - 1].Length()
  }

  /** The long entries of a group, if it has any, and its short entry are at their place. */
  ghost predicate GroupAt(dir: Dir, pos: int, count: int, g: Group) {
    && pos + g.Length() <= count
    && (g.long == [] || LaidOut(dir, pos, g.long, g.Deleted()))
    && dir(pos + g.Length() - 1) == g.short && Attr(g.short) != ATTR_LONG_NAME && g.short[0] != 0
  }

  /** What stands at the end of a directory that does not fill its clusters. */
  ghost function EndMark(): Group {
    Group([], seq(32, _ => 0))
  }

  ghost predicate Member(dir: Dir, count: nat, groups: seq<Group>, i: nat)
    requires i < |groups|
  {
    GroupAt(dir, Start(groups, i), count, groups[i])
  }

  /** The directory holds exactly `groups`, up to its end or to the end mark. */
  ghost predicate Holds(dir: Dir, count: nat, groups: seq<Group>) {
    var end := Start(groups, |groups|);
    && (forall i: nat {:trigger Member(dir, count, groups, i)} | i < |groups| :: Member(dir, count, groups, i))
    && (end == count || (end < count && dir(end)[0] == 0))
  }

  /** The string in the name buffer is the group's name. */
  ghost predicate Named(mem: seq<Byte>, g: Group) {
    (g.long == [] || LongName(g.long)) && Ends(mem, 0) && Text(mem, 0) == g.Name()
  }

  ghost predicate Taken(kind: int, firstCluster: int, fileSize: int, short: DirEntry) {
    kind == Attr(short) && firstCluster == FirstCluster(short) && fileSize == Long32(short, 28)
  }

  /** What read_name finds where a group begins. */
  lemma ReadsGroup(dir: Dir, pos: int, count: int, g: Group)
    requires GroupAt(dir, pos, count, g)
    ensures Readable(dir, pos, g.long, g.Deleted()) && dir(pos)[0] != 0 && Before(dir, pos, g.long) + 1 == g.Length()
    ensures g.long != [] ==> LongName(g.long)
    ensures NameAt(dir, pos, g.long, g.Deleted()) == g.Name()
  {
    if g.long != [] {
      LaidOutRun(dir, pos, g.long, g.Deleted());
      assert PartAt(dir, pos, pos, g.long, g.Deleted());
    }
  }

  lemma AtGroup(dir: Dir, count: nat, groups: seq<Group>, i: nat, pos: int)
    requires Holds(dir, count, groups) && i < |groups| && pos == Start(groups, i)
    ensures GroupAt(dir, pos, count, groups[i])
  {
    assert Member(dir, count, groups, i);
  }

  lemma ShortBehind(dir: Dir, pos: int, count: int, g: Group, last: int)
    requires GroupAt(dir, pos, count, g) && last == pos + g.Length() - 1
    ensures last < count && dir(last) == g.short
  {
  }

  /** FATDir_Type */
  class FatDir {
    const dir: Dir
    const size: nat
    var offset: nat
    // file_info
    const name: array<Byte>
    var kind: int
    var firstCluster: int
    var fileSize: int
    // The size and the offset in entries, and how many files were listed.
    ghost const count: nat
    ghost var pos: nat
    ghost var listed: nat

    /** The end of fatfs_opendir: the clusters of the directory were read, `size` bytes. */
    constructor (dir: Dir, size: nat)
      requires size % ENTRY == 0
      ensures this.dir == dir && this.size == size && offset == 0 && fresh(name) && Aligned() && listed == 0 == pos
    {
      this.dir, this.size, offset := dir, size, 0;
      pos, count, listed := 0, size / ENTRY, 0;
      name := new Byte[NAME_SIZE](_ => 0);
      kind, firstCluster, fileSize := 0, 0, 0;
    }

    ghost predicate Aligned()
      reads this
    {
      offset == 32 * pos && size == 32 * count && name.Length == 256
    }

    /** The directory is read up to group number `listed`. */
    ghost predicate Reading(groups: seq<Group>)
      reads this
    {
      Aligned() && Holds(dir, count, groups) && listed <= |groups| && pos == Start(groups, listed)
    }

    /** fatfs_readdir: the next file, or NULL at the end. The offset moves behind the file's short entry. `ok` is false
        where the name is written past the end of its buffer. */
    method Readdir(ghost groups: seq<Group>) returns (found: bool, ok: bool)
      requires Reading(groups)
      modifies this`offset, this`pos, this`listed, this`kind, this`firstCluster, this`fileSize, name
      ensures ok <==> old(listed) == |groups| || groups[old(listed)].Fits()
      ensures ok ==> Reading(groups) && (found <==> old(listed) < |groups|)
      ensures !found ==> offset == old(offset) && listed == old(listed)
      ensures found ==> ok && listed == old(listed) + 1
      ensures found ==> offset == old(offset) + 32 * groups[old(listed)].Length()
      ensures found ==> Named(name[..], groups[old(listed)])
      ensures found ==> Taken(kind, firstCluster, fileSize, groups[old(listed)].short)
    {
      if listed < |groups| {
        AtGroup(dir, count, groups, listed, pos);
        ShortBehind(dir, pos, count, groups[listed], pos + groups[listed].Length() - 1);
      }
      if offset >= size {
        return false, true;
      }
      var at, max := offset / ENTRY, (size - offset) / ENTRY;
      assert at == pos && max == count - pos;
      var ret;
      ret, ok := Fetch(at, max, if listed < |groups| then groups[listed] else EndMark());
      if !ok || ret == -1 {
        return false, ok;
      }
      Advance(ret, groups[listed].short);
      listed := listed + 1;
      found := true;
    }

    /** read_name where the group `g` begins. */
    method Fetch(at: int, max: nat, ghost g: Group) returns (ret: int, ok: bool)
      requires name.Length == NAME_SIZE
      requires if g == EndMark() then dir(at)[0] == 0 else GroupAt(dir, at, at + max, g)
      modifies name
      ensures ok <==> g == EndMark() || g.Fits()
      ensures ok ==> if g == EndMark() then ret == -1 else ret == g.Length() - 1 && Named(name[..], g)
    {
      if g != EndMark() {
        ReadsGroup(dir, at, at + max, g);
      }
      ret, ok := ReadName(dir, at, name, max, g.long, g.Deleted());
    }

    /** The offset goes behind the short entry, whose fields are taken over. */
    method Advance(ret: nat, ghost short: DirEntry)
      requires Aligned() && dir(pos + ret) == short
      modifies this`offset, this`pos, this`kind, this`firstCluster, this`fileSize
      ensures Aligned() && pos == old(pos) + ret + 1 && Taken(kind, firstCluster, fileSize, short)
    {
      offset, pos := offset + (ret + 1) * ENTRY, pos + (ret + 1);
      var at := offset / ENTRY - 1;
      assert at == pos - 1;
      TakeFields(dir(at));
    }

    method TakeFields(short: DirEntry)
      modifies this`kind, this`firstCluster, this`fileSize
      ensures Taken(kind, firstCluster, fileSize, short)
    {
      kind, firstCluster, fileSize := Attr(short), FirstCluster(short), Long32(short, 28);
    }

    /** What a caller sees of the file just listed. */
    method TakeInfo(ghost g: Group) returns (info: Info)
      requires Named(name[..], g) && Taken(kind, firstCluster, fileSize, g.short)
      ensures info == InfoOf(g.Name(), g.short)
    {
      var end := StrEnd(name, 0);
      info := Info(name[..end], kind, firstCluster, fileSize);
    }
  }

  ghost predicate IsInfo(info: Info, g: Group) {
    (g.long == [] || LongName(g.long)) && info == InfoOf(g.Name(), g.short)
  }

  /** The groups that are files. */
  ghost function Files(groups: seq<Group>): seq<Group> {
    if groups == [] then []
    else
      var last := groups[|groups| - 1];
      Files(groups[..|groups| - 1]) + if last.Deleted() then [] else [last]
  }

  lemma {:induction false} FilesCount(groups: seq<Group>)
    ensures |Files(groups)| <= |groups|
    ensures |Files(groups)| == |groups| <==> forall i | 0 <= i < |groups| :: !groups[i].Deleted()
    ensures |Files(groups)| == |groups| ==> Files(groups) == groups
    decreases |groups|
  {
    if groups != [] {
      FilesCount(groups[..|groups| - 1]);
    }
  }

  /** What was listed so far: the first groups, each fitting in the name buffer. */
  ghost predicate Listed(groups: seq<Group>, infos: seq<Info>) {
    |infos| <= |groups| && forall i | 0 <= i < |infos| :: IsInfo(infos[i], groups[i]) && groups[i].Fits()
  }

  lemma ListedMore(groups: seq<Group>, infos: seq<Info>, info: Info)
    requires Listed(groups, infos) && |infos| < |groups| && IsInfo(info, groups[|infos|]) && groups[|infos|].Fits()
    ensures Listed(groups, infos + [info])
  {
  }

  /** One call of fatfs_readdir, and what its caller sees. */
  method Next(d: FatDir, ghost groups: seq<Group>) returns (found: bool, ok: bool, info: Info)
    requires d.Reading(groups)
    modifies d`offset, d`pos, d`listed, d`kind, d`firstCluster, d`fileSize, d.name
    ensures if old(d.listed) == |groups| then ok && !found
            else if groups[old(d.listed)].Fits() then ok && found else !ok && !found
    ensures found ==> d.Reading(groups) && d.listed == old(d.listed) + 1 <= |groups|
    ensures found ==> IsInfo(info, groups[old(d.listed)])
  {
    ghost var at := d.listed;
    found, ok := d.Readdir(groups);
    info := Info([], 0, 0, 0);
    if found {
      info := d.TakeInfo(groups[at]);
    }
  }

  /** Reading a directory to its end lists every group exactly once, in the directory's order, unless a name does not
      fit in its buffer: then it lists those before the first such name. */
  method ListAll(d: FatDir, ghost groups: seq<Group>) returns (infos: seq<Info>, ok: bool)
    requires d.Reading(groups) && d.listed == 0
    modifies d`offset, d`pos, d`listed, d`kind, d`firstCluster, d`fileSize, d.name
    ensures Listed(groups, infos)
    ensures if ok then |infos| == |groups| else |infos| < |groups| && !groups[|infos|].Fits()
  {
    infos := [];
    while true
      invariant d.Reading(groups) && d.listed == |infos| && Listed(groups, infos)
      decreases |groups| - |infos|
    {
      var found, info;
      found, ok, info := Next(d, groups);
      if !found {
        return;
      }
      ListedMore(groups, infos, info);
      infos := infos + [info];
    }
  }

  /** The code does not look for the mark of a deleted file. Where all names fit, it lists exactly the files when none
      is deleted, and more than the files otherwise. */
  method ListFiles(d: FatDir, ghost groups: seq<Group>) returns (infos: seq<Info>, ok: bool)
    requires d.Reading(groups) && d.listed == 0
    modifies d`offset, d`pos, d`listed, d`kind, d`firstCluster, d`fileSize, d.name
    ensures ok <==> forall i | 0 <= i < |groups| :: groups[i].Fits()
    ensures ok ==> if forall i | 0 <= i < |groups| :: !groups[i].Deleted()
                   then |infos| == |Files(groups)| && forall i | 0 <= i < |infos| :: IsInfo(infos[i], Files(groups)[i])
                   else |infos| > |Files(groups)|
  {
    FilesCount(groups);
    infos, ok := ListAll(d, groups);
  }

  // ----- From the stored bytes -----

  /** A file as it is stored: its entries, the checksum in the long ones, and the numbers in the short one. */
  datatype File = File(group: Group, checksum: int, attr: int, cluster: int, size: int)

  ghost predicate StoredFile(dir: Dir, pos: int, count: int, f: File) {
    && pos + f.group.Length() <= count
    && (f.group.long == [] || Stored(dir, pos, f.group.long, f.group.Deleted(), f.checksum))
    && dir(pos + f.group.Length() - 1) == f.group.short
    && f.group.short[0] != 0 && f.attr != 0x0F && ShortEntry(f.group.short, f.attr, f.cluster, f.size)
  }

  ghost function Groups(files: seq<File>): (groups: seq<Group>)
    ensures |groups| == |files| && forall i | 0 <= i < |files| :: groups[i] == files[i].group
  {
    seq(|files|, i requires 0 <= i < |files| => files[i].group)
  }

  ghost predicate StoredMember(dir: Dir, count: nat, files: seq<File>, i: nat)
    requires i < |files|
  {
    StoredFile(dir, Start(Groups(files), i), count, files[i])
  }

  /** The directory's bytes are those of `files`, one behind the other, up to its end or to a zero. */
  ghost predicate StoredDirectory(dir: Dir, count: nat, files: seq<File>) {
    var end := Start(Groups(files), |files|);
    && (forall i: nat {:trigger StoredMember(dir, count, files, i)} | i < |files| :: StoredMember(dir, count, files, i))
    && (end == count || (end < count && dir(end)[0] == 0))
  }

  /** The bytes of one file are the group that the code finds, with the numbers that were stored. */
  lemma StoredFileIsGroup(dir: Dir, pos: int, count: int, f: File)
    requires StoredFile(dir, pos, count, f)
    ensures GroupAt(dir, pos, count, f.group)
    ensures forall info: Info :: IsInfo(info, f.group) ==> info == Info(f.group.Name(), f.attr, f.cluster, f.size)
  {
    if f.group.long != [] {
      StoredIsLaidOut(dir, pos, f.group.long, f.group.Deleted(), f.checksum);
    }
    ShortEntryInfo(f.group.short, f.attr, f.cluster, f.size, f.group.Name());
  }

  lemma StoredIsHeld(dir: Dir, count: nat, files: seq<File>)
    requires StoredDirectory(dir, count, files)
    ensures Holds(dir, count, Groups(files))
  {
    forall i: nat | i < |Groups(files)| ensures Member(dir, count, Groups(files), i) {
      assert StoredMember(dir, count, files, i);
      StoredFileIsGroup(dir, Start(Groups(files), i), count, files[i]);
    }
  }

  /** From the bytes of a directory to its listing: every file in its order, with the attributes, the first cluster and
      the size that were stored, exactly when all names fit. */
  method ListStored(d: FatDir, ghost files: seq<File>) returns (infos: seq<Info>, ok: bool)
    requires d.Aligned() && d.pos == 0 == d.listed && StoredDirectory(d.dir, d.count, files)
    modifies d`offset, d`pos, d`listed, d`kind, d`firstCluster, d`fileSize, d.name
    ensures ok <==> forall i | 0 <= i < |files| :: files[i].group.Fits()
    ensures ok ==> |infos| == |files| && forall i | 0 <= i < |files| ::
              infos[i] == Info(files[i].group.Name(), files[i].attr, files[i].cluster, files[i].size)
  {
    StoredIsHeld(d.dir, d.count, files);
    infos, ok := ListAll(d, Groups(files));
    forall i | 0 <= i < |infos|
      ensures files[i].group.Fits()
      ensures infos[i] == Info(files[i].group.Name(), files[i].attr, files[i].cluster, files[i].size)
    {
      assert StoredMember(d.dir, d.count, files, i);
      StoredFileIsGroup(d.dir, Start(Groups(files), i), d.count, files[i]);
      assert IsInfo(infos[i], Groups(files)[i]);
    }
  }

  // ----- Deleted files, and a name that does not fit -----

  /** A deleted file: the mark, and "A.TXT" without its first letter behind it. */
  function DeletedEntry(): DirEntry {
    [FREE] + seq(7, _ => SPACE) + [0x54, 0x58, 0x54, 0x20] + seq(20, _ => 0)
  }

  lemma DeletedEntryFields()
    ensures var e := DeletedEntry();
      && Attr(e) == 0x20 && e[..8] == Filled([FREE], 8) && e[8..11] == Filled([0x54, 0x58, 0x54], 3)
  {
  }

  lemma DeletedEntryName()
    ensures ShortName(DeletedEntry()) == [FREE, DOT, 0x54, 0x58, 0x54]
  {
    DeletedEntryFields();
    TrimFilled([FREE], 8);
    TrimFilled([0x54, 0x58, 0x54], 3);
  }

  /** The directory with that entry alone has no files, and lists one. */
  lemma DeletedIsListed()
    ensures var g := Group([], DeletedEntry());
      && Holds(_ => DeletedEntry(), 1, [g]) && Files([g]) == [] && g.Fits() && g.Name() == [FREE, DOT, 0x54, 0x58, 0x54]
  {
    var e, g := DeletedEntry(), Group([], DeletedEntry());
    DeletedEntryFields();
    DeletedEntryName();
    assert Start([g], 1) == 1 && Start([g], 0) == 0;
    assert Member(_ => e, 1, [g], 0);
    assert [g][..0] == [] && Files([]) == [];
  }

  /** A deleted file with a long name is listed under the thirteen units next to its short entry. */
  lemma DeletedIsCut(g: Group)
    requires LongName(g.long) && g.Deleted()
    ensures g.Name() == Coding.EncodeAll(g.long[..if |g.long| > UNITS then UNITS else |g.long|])
    ensures g.Name() == Coding.EncodeAll(g.long) <==> |g.long| <= UNITS
  {
    if |g.long| > UNITS {
      Coding.EncodeAllMore(g.long, UNITS);
    } else {
      assert g.long[..|g.long|] == g.long;
    }
  }

  /** A file whose name is 86 times a unit of three bytes does not fit. */
  lemma NameDoesNotFit(g: Group)
    requires g.long == Repeated(0x4E00, 86) && !g.Deleted()
    ensures LongName(g.long) && |g.Name()| == 258 && !g.Fits()
  {
    NameOverflows();
  }
}
