/** fs/fat.c: the name of a directory entry, from its long entries or from its short one. */
module FatNames {
  import opened Bytes
  import opened Coding
  import opened Strings

  const ATTR_LONG_NAME := 0x0F
  const SPACE: Byte := 0x20
  const DOT: Byte := 0x2E
  const UNITS := 13
  const PAD := 0xFFFF

  type DirEntry = e: seq<Byte> | |e| == 32 witness seq(32, _ => 0)

  /** Directory entries by number; what is around the directory's buffer has a number, too. */
  type Dir = int -> DirEntry

  function Attr(e: DirEntry): int { e[11] }

  function Ord(e: DirEntry): int { e[0] }

  function Word(e: DirEntry, at: nat): int
    requires at < 31
  {
    var low: int, high: int := e[at], e[at + 1];
    low + 0x100 * high
  }

  /** The thirteen units of a long entry: LDIR_Name1, LDIR_Name2 and LDIR_Name3. */
  function Unit(e: DirEntry, j: nat): int
    requires j < UNITS
  {
    if j < 5 then Word(e, 1 + 2 * j) else if j < 11 then Word(e, 14 + 2 * (j - 5)) else Word(e, 28 + 2 * (j - 11))
  }

  // ----- Long names as the specification lays them out -----

  ghost predicate LongName(name: seq<int>) {
    1 <= |name| <= 255 && forall i | 0 <= i < |name| :: 0 < name[i] < 0xFFFF
  }

  /** How many long entries a name takes. */
  function EntriesFor(length: nat): nat { (length + 12) / 13 }

  /** The name, a zero behind it, and padding. */
  ghost function Padded(name: seq<int>, i: nat): int {
    if i < |name| then name[i] else if i == |name| then 0 else 0xFFFF
  }

  /** Long entry number `k` of a name, counted from the beginning of the name. */
  ghost predicate HoldsPart(e: DirEntry, name: seq<int>, k: nat) {
    && Attr(e) == ATTR_LONG_NAME
    && forall j: nat | j < UNITS :: Unit(e, j) == Padded(name, UNITS * k + j)
  }

  /** The first byte of every entry of a deleted file. */
  const FREE := 0xE5

  /** The first byte of long entry number `k`: its order, with a bit in the one that ends the name; or the mark of a
      deleted file, which leaves the rest of the entry as it was. */
  function Mark(name: seq<int>, k: nat, deleted: bool): int {
    if deleted then FREE else k + 1 + (if k + 1 == EntriesFor(|name|) then 0x40 else 0)
  }

  /** The long entries of a name lie in reverse order before an entry that is not one. */
  ghost predicate LaidOut(dir: Dir, pos: int, name: seq<int>, deleted: bool) {
    && LongName(name)
    && (forall q | pos <= q < pos + EntriesFor(|name|) :: PartAt(dir, pos, q, name, deleted))
    && Attr(dir(pos + EntriesFor(|name|))) != ATTR_LONG_NAME
  }

  ghost predicate PartAt(dir: Dir, pos: int, q: int, name: seq<int>, deleted: bool)
    requires pos <= q < pos + EntriesFor(|name|)
  {
    var k := pos + EntriesFor(|name|) - 1 - q;
    HoldsPart(dir(q), name, k) && Ord(dir(q)) == Mark(name, k, deleted)
  }

  /** What read_name takes of a name: all of it, or the units of its first entry when the file was deleted. */
  ghost function Seen(name: seq<int>, deleted: bool): seq<int> {
    if deleted && |name| > UNITS then name[..UNITS] else name
  }

  // ----- The entries byte by byte -----

  /** A number of 16 bits is stored lowest byte first at `at`. */
  ghost predicate Stores(e: DirEntry, at: nat, x: int)
    requires at < 31
  {
    0 <= x < 0x1_0000 && e[at] == x % 0x100 && e[at + 1] == x / 0x100
  }

  /** A long entry as the specification stores it: the order, units 0 to 4, the attributes, a type of 0, the checksum
      of the short name, units 5 to 10, two zeros, and units 11 and 12. */
  ghost predicate LongEntry(e: DirEntry, order: int, checksum: int, u: seq<int>) {
    && |u| == 13 && e[0] == order
    && Stores(e, 1, u[0]) && Stores(e, 3, u[1]) && Stores(e, 5, u[2]) && Stores(e, 7, u[3]) && Stores(e, 9, u[4])
    && e[11] == 0x0F && e[12] == 0 && e[13] == checksum
    && Stores(e, 14, u[5]) && Stores(e, 16, u[6]) && Stores(e, 18, u[7])
    && Stores(e, 20, u[8]) && Stores(e, 22, u[9]) && Stores(e, 24, u[10])
    && e[26] == 0 && e[27] == 0
    && Stores(e, 28, u[11]) && Stores(e, 30, u[12])
  }

  lemma WordIsStored(e: DirEntry, at: nat, x: int)
    requires at < 31 && Stores(e, at, x)
    ensures Word(e, at) == x
  {
  }

  /** The code reads from it the units that were stored. */
  lemma LongEntryUnit(e: DirEntry, order: int, checksum: int, u: seq<int>, j: nat)
    requires LongEntry(e, order, checksum, u) && j < UNITS
    ensures Unit(e, j) == u[j]
  {
    WordIsStored(e, if j < 5 then 1 + 2 * j else if j < 11 then 4 + 2 * j else 6 + 2 * j, u[j]);
  }

  /** The units of part `k` of a name. */
  ghost function PartUnits(name: seq<int>, k: nat): (u: seq<int>)
    requires LongName(name)
    ensures |u| == 13 && forall j | 0 <= j < 13 :: u[j] == Padded(name, 13 * k + j)
  {
    seq(13, j requires 0 <= j < 13 => Padded(name, 13 * k + j))
  }

  /** The long entries of a name as they are stored at `pos`: its last part first, with bit 6 in the order of that one.
      A deleted file's entries have 0xE5 for their order. */
  ghost predicate Stored(dir: Dir, pos: int, name: seq<int>, deleted: bool, checksum: int) {
    && LongName(name)
    && forall i: nat | i < EntriesFor(|name|) :: StoredPart(dir, pos, i, name, deleted, checksum)
  }

  ghost predicate StoredPart(dir: Dir, pos: int, i: nat, name: seq<int>, deleted: bool, checksum: int)
    requires LongName(name) && i < EntriesFor(|name|)
  {
    var number := EntriesFor(|name|) - i;
    var order := if deleted then 0xE5 else if i == 0 then 0x40 + number else number;
    LongEntry(dir(pos + i), order, checksum, PartUnits(name, number - 1))
  }

  lemma LongEntryHolds(e: DirEntry, order: int, checksum: int, name: seq<int>, k: nat)
    requires LongName(name) && LongEntry(e, order, checksum, PartUnits(name, k))
    ensures HoldsPart(e, name, k) && Ord(e) == order
  {
    forall j: nat | j < UNITS ensures Unit(e, j) == Padded(name, UNITS * k + j) {
      LongEntryUnit(e, order, checksum, PartUnits(name, k), j);
    }
  }

  lemma StoredPartHolds(dir: Dir, pos: int, i: nat, name: seq<int>, deleted: bool, checksum: int)
    requires LongName(name) && i < EntriesFor(|name|) && StoredPart(dir, pos, i, name, deleted, checksum)
    ensures PartAt(dir, pos, pos + i, name, deleted)
  {
    var number := EntriesFor(|name|) - i;
    var order := if deleted then 0xE5 else if i == 0 then 0x40 + number else number;
    LongEntryHolds(dir(pos + i), order, checksum, name, number - 1);
  }

  /** A name whose entries are stored that way, of a file or of a deleted one, is laid out the way the code reads it
      back. */
  lemma StoredIsLaidOut(dir: Dir, pos: int, name: seq<int>, deleted: bool, checksum: int)
    requires Stored(dir, pos, name, deleted, checksum) && dir(pos + EntriesFor(|name|))[11] != 0x0F
    ensures LaidOut(dir, pos, name, deleted)
  {
    forall q | pos <= q < pos + EntriesFor(|name|) ensures PartAt(dir, pos, q, name, deleted) {
      StoredPartHolds(dir, pos, q - pos, name, deleted, checksum);
    }
  }

  // ----- Collecting the units -----

  /** The first `m` padded units were copied, up to the zero, and the rest of the buffer is zero. */
  ghost predicate Copied(buf: seq<int>, name: seq<int>, m: nat, w: nat) {
    && |buf| == 256 && w == Min(m, |name| + 1)
    && forall i | 0 <= i < 256 :: buf[i] == if i < m && i < |name| then name[i] else 0
  }

  /** One of the three steps of the loop in read_name, at unit `j` of long entry `k`: it stops at padding, and copies
      with wstrncpy otherwise. */
  method CopyPart(buf: array<int>, w: nat, e: DirEntry, j: nat, n: nat, ghost name: seq<int>, ghost k: nat)
    returns (stop: bool, next: nat)
    requires LongName(name) && HoldsPart(e, name, k) && 0 < n && j + n <= UNITS
    requires Copied(buf[..], name, UNITS * k + j, w)
    modifies buf
    ensures stop <==> UNITS * k + j > |name|
    ensures if stop then buf[..] == old(buf[..]) && next == w else Copied(buf[..], name, UNITS * k + j + n, next)
  {
    if Unit(e, j) == PAD {
      return true, w;
    }
    stop, next := false, w;
    var i := j;
    while i < j + n
      invariant j <= i <= j + n && UNITS * k + i <= |name|
      invariant Copied(buf[..], name, UNITS * k + i, next)
      decreases j + n - i
    {
      ghost var before := buf[..];
      buf[next] := Unit(e, i);
      assert buf[..] == before[next := Padded(name, UNITS * k + i)];
      next := next + 1;
      i := i + 1;
      if Unit(e, i - 1) == 0 {
        break;
      }
    }
  }

  /** One long entry: false when the padding was reached. */
  method CopyEntry(buf: array<int>, w: nat, e: DirEntry, ghost name: seq<int>, ghost k: nat)
    returns (more: bool, next: nat)
    requires LongName(name) && HoldsPart(e, name, k) && Copied(buf[..], name, UNITS * k, w)
    modifies buf
    ensures more ==> Copied(buf[..], name, UNITS * (k + 1), next)
    ensures !more ==> |name| < UNITS * (k + 1) && exists m | m > |name| :: Copied(buf[..], name, m, next)
  {
    var stop;
    stop, next := CopyPart(buf, w, e, 0, 5, name, k);
    if stop {
      return false, next;
    }
    stop, next := CopyPart(buf, next, e, 5, 6, name, k);
    if stop {
      return false, next;
    }
    stop, next := CopyPart(buf, next, e, 11, 2, name, k);
    more := !stop;
  }

  /** The run of long entries that starts at `pos` is `n` long and ends before an entry that is not long. */
  ghost predicate Run(dir: Dir, pos: int, n: nat) {
    && (forall q | pos <= q < pos + n :: Attr(dir(q)) == ATTR_LONG_NAME)
    && Attr(dir(pos + n)) != ATTR_LONG_NAME
  }

  lemma LaidOutRun(dir: Dir, pos: int, name: seq<int>, deleted: bool)
    requires LaidOut(dir, pos, name, deleted)
    ensures EntriesFor(|name|) > 0 && Run(dir, pos, EntriesFor(|name|))
    ensures UNITS * (EntriesFor(|name|) - 1) < |name| <= UNITS * EntriesFor(|name|) && EntriesFor(|name|) <= 20
  {
    forall q | pos <= q < pos + EntriesFor(|name|) ensures Attr(dir(q)) == ATTR_LONG_NAME {
      assert PartAt(dir, pos, q, name, deleted);
    }
  }

  /** The first loop of read_name: the entries up to the first that is not long, or -1 behind the last one allowed. */
  method CountRun(dir: Dir, pos: int, max: nat, ghost n: nat) returns (count: int)
    requires Run(dir, pos, n)
    ensures count == if n <= max then n else -1
  {
    count := 0;
    while Attr(dir(pos + count)) == ATTR_LONG_NAME
      invariant 0 <= count <= n && count <= max
      decreases n - count
    {
      count := count + 1;
      if count > max {
        return -1;
      }
    }
  }

  /** The bit that marks the last long entry, which is the first one on disk. */
  function LastMark(e: DirEntry): bool { Ord(e) / 0x40 % 2 == 1 }

  /** The second loop of read_name: from the last long entry backwards, until padding or an entry with the bit. The
      mark of a deleted file has that bit, so there the loop ends with the first entry it takes. */
  method Collect(dir: Dir, pos: int, count: nat, buf: array<int>, ghost name: seq<int>, ghost deleted: bool)
    returns (ok: bool)
    requires LaidOut(dir, pos, name, deleted) && count == EntriesFor(|name|)
    requires buf.Length == 256 && forall i | 0 <= i < 256 :: buf[i] == 0
    modifies buf
    ensures ok && forall i | 0 <= i < 256 :: buf[i] == if i < |Seen(name, deleted)| then Seen(name, deleted)[i] else 0
  {
    LaidOutRun(dir, pos, name, deleted);
    var entry, w, last := pos + count - 1, 0, false;
    ghost var k := 0;
    while !last
      invariant 0 <= k <= (if deleted then 1 else count) && entry == pos + count - 1 - k
      invariant last <==> k == if deleted then 1 else count
      invariant Copied(buf[..], name, UNITS * k, w)
      decreases count - k
    {
      assert PartAt(dir, pos, entry, name, deleted);
      var more, next := CopyEntry(buf, w, dir(entry), name, k);
      if !more {
        assert forall i | 0 <= i < 256 :: buf[i] == buf[..][i];
        return true;
      }
      w := next;
      if entry < pos {
        return false;
      }
      last := LastMark(dir(entry));
      entry, k := entry - 1, k + 1;
    }
    assert forall i | 0 <= i < 256 :: buf[i] == buf[..][i];
    ok := true;
  }

  // ----- Short names -----

  /** The bytes before the first space or zero. */
  ghost function Trim(s: seq<Byte>): (r: seq<Byte>)
    ensures |r| <= |s| && r == s[..|r|] && (|r| < |s| ==> s[|r|] == SPACE || s[|r|] == 0)
    ensures forall i | 0 <= i < |r| :: r[i] != SPACE && r[i] != 0
  {
    if s == [] || s[0] == SPACE || s[0] == 0 then [] else [s[0]] + Trim(s[1..])
  }

  ghost predicate DotName(s: seq<Byte>) { s == [DOT] || s == [DOT, DOT] }

  /** The name of a short entry: the base, and a dot and the extension where there is one. */
  ghost function ShortName(e: DirEntry): seq<Byte> {
    var base := Trim(e[..8]);
    if DotName(base) || e[8] == SPACE then base else base + [DOT] + Trim(e[8..11])
  }

  /** No space and no zero. */
  ghost predicate Plain(s: seq<Byte>) {
    forall i | 0 <= i < |s| :: s[i] != SPACE && s[i] != 0
  }

  /** Filled up with spaces. */
  ghost function Filled(s: seq<Byte>, n: nat): (r: seq<Byte>)
    requires |s| <= n
    ensures |r| == n
  {
    s + seq(n - |s|, _ => 0x20)
  }

  lemma {:induction false} TrimFilled(s: seq<Byte>, n: nat)
    requires |s| <= n && Plain(s)
    ensures Trim(Filled(s, n)) == s
  {
    var f := Filled(s, n);
    if s == [] {
      assert n > 0 ==> f[0] == SPACE;
    } else {
      assert f[1..] == Filled(s[1..], n - 1);
      TrimFilled(s[1..], n - 1);
      assert s == [s[0]] + s[1..];
    }
  }

  /** What the specification allows in a field, behind which it is filled up with spaces: no zeros, and no space at the
      end. Spaces inside are legal. */
  ghost predicate Field(s: seq<Byte>) {
    0 !in s && (s != [] ==> s[|s| - 1] != SPACE)
  }

  /** A space inside cuts the field there. */
  lemma {:induction false} TrimCuts(s: seq<Byte>, n: nat)
    requires |s| <= n && 0 !in s && SPACE in s
    ensures |Trim(Filled(s, n))| < |s|
  {
    var f := Filled(s, n);
    if s[0] != SPACE {
      assert f[1..] == Filled(s[1..], n - 1);
      assert s == [s[0]] + s[1..];
      TrimCuts(s[1..], n - 1);
    }
  }

  lemma TrimLength(s: seq<Byte>, n: nat)
    requires |s| <= n && 0 !in s
    ensures |Trim(Filled(s, n))| <= |s|
    ensures |Trim(Filled(s, n))| == |s| <==> SPACE !in s
  {
    if SPACE in s {
      TrimCuts(s, n);
    } else {
      TrimFilled(s, n);
    }
  }

  ghost function Dotted(base: seq<Byte>, ext: seq<Byte>): seq<Byte> {
    if ext == [] then base else base + [0x2E] + ext
  }

  /** A name and an extension stored in the fixed fields come back with a dot between them, or without one when there
      is no extension, exactly when neither has a space inside. */
  lemma ShortNameInverts(e: DirEntry, base: seq<Byte>, ext: seq<Byte>)
    requires |base| <= 8 && |ext| <= 3 && Field(base) && Field(ext) && (DotName(base) ==> ext == [])
    requires e[..8] == Filled(base, 8) && e[8..11] == Filled(ext, 3)
    ensures ShortName(e) == Dotted(base, ext) <==> SPACE !in base && SPACE !in ext
  {
    TrimLength(base, 8);
    TrimLength(ext, 3);
    assert e[8] == e[8..11][0];
    if SPACE !in base && SPACE !in ext {
      TrimFilled(base, 8);
      TrimFilled(ext, 3);
    }
  }

  /** "A B" comes back as "A". */
  lemma SpaceInside(e: DirEntry)
    requires e[..8] == Filled([0x41, SPACE, 0x42], 8) && e[8..11] == Filled([], 3)
    ensures ShortName(e) == [0x41]
  {
    assert e[..8][0] == 0x41 && e[..8][1..][0] == SPACE && e[8..11][0] == SPACE;
  }

  /** memcpy of a part of the entry into the name, with a zero behind it. */
  method PutField(name: array<Byte>, at: nat, e: DirEntry, from: nat, n: nat)
    requires at + n < name.Length && from + n <= 32
    modifies name
    ensures name[..at + n + 1] == old(name[..at]) + e[from..from + n] + [0]
  {
    for i := 0 to n
      invariant name[..at + i] == old(name[..at]) + e[from..from + i]
    {
      name[at + i] := e[from + i];
    }
    name[at + n] := 0;
  }

  /** strcspn of a space, and a zero there. */
  method CutAtSpace(name: array<Byte>, n: nat, ghost text: seq<Byte>) returns (len: nat)
    requires n < name.Length && name[..n + 1] == text + [0]
    modifies name
    ensures len == |Trim(text)| && Ends(name[..], 0) && Text(name[..], 0) == Trim(text)
    ensures name[..len] == Trim(text)
  {
    ghost var mem, k := name[..], |Trim(text)|;
    assert mem[..n + 1] == text + [0];
    FirstZero(mem, n);
    assert forall i | 0 <= i < k :: mem[i] == mem[..n + 1][i] == Trim(text)[i];
    EndNotBefore(mem, 0, k);
    len := Strcspn(name, 0, [SPACE]);
    CutPoint(mem, End(mem, 0), text, n, 0);
    name[len] := 0;
    assert name[..len] == mem[..len] == Trim(text);
    assert forall i | 0 <= i < len :: name[..][i] == Trim(text)[i];
    EndIs(name[..], 0, len);
  }

  lemma {:induction false} FirstZero(mem: seq<Byte>, n: nat)
    requires n < |mem| && mem[n] == 0
    ensures Ends(mem, 0) && End(mem, 0) <= n
  {
  }

  lemma {:induction false} EndNotBefore(mem: seq<Byte>, p: nat, k: nat)
    requires p <= k <= |mem| && forall i | p <= i < k :: mem[i] != 0
    ensures k <= End(mem, p)
    decreases k - p
  {
  }

  /** Looking for a space before the first zero stops where Trim does. */
  lemma {:induction false} CutPoint(mem: seq<Byte>, e: nat, text: seq<Byte>, n: nat, p: nat)
    requires n < |mem| && |text| == n && mem[..n + 1] == text + [0] && e == End(mem, 0) <= n
    requires p <= |Trim(text)| <= e
    ensures UpTo(mem, p, e, [SPACE]) == |Trim(text)|
    decreases e - p
  {
    var k := |Trim(text)|;
    assert forall i | 0 <= i < n :: mem[i] == mem[..n + 1][i] == text[i];
    if p < k {
      assert mem[p] == text[p] == Trim(text)[p];
      CutPoint(mem, e, text, n, p + 1);
    } else if k < n {
      assert mem[k] == text[k];
    }
  }

  lemma {:induction false} TrimBehind(front: seq<Byte>, rest: seq<Byte>)
    requires Plain(front)
    ensures Trim(front + rest) == front + Trim(rest)
  {
    if front == [] {
      assert front + rest == rest;
    } else {
      TrimBehind(front[1..], rest);
      assert (front + rest)[1..] == front[1..] + rest && front == [front[0]] + front[1..];
    }
  }

  /** A dot behind the base, and the extension up to its first space. */
  method PutExtension(e: DirEntry, name: array<Byte>, len: nat, ghost base: seq<Byte>)
    requires name.Length >= 13 && len == |base| <= 8 && name[..len] == base && Plain(base)
    modifies name
    ensures Ends(name[..], 0) && Text(name[..], 0) == base + [DOT] + Trim(e[8..11])
  {
    name[len] := DOT;
    assert name[..len + 1] == base + [DOT];
    PutField(name, len + 1, e, 8, 3);
    TrimBehind(base + [DOT], e[8..11]);
    var cut := CutAtSpace(name, len + 4, base + [DOT] + e[8..11]);
  }

  /** The short form of read_name. */
  method ReadShort(e: DirEntry, name: array<Byte>)
    requires name.Length >= 13
    modifies name
    ensures Ends(name[..], 0) && Text(name[..], 0) == ShortName(e)
  {
    PutField(name, 0, e, 0, 8);
    ghost var base := Trim(e[..8]);
    var len := CutAtSpace(name, 8, e[..8]);
    var one := Strcmp(name, 0, [DOT]);
    var two := Strcmp(name, 0, [DOT, DOT]);
    if one == 0 || two == 0 || e[8] == SPACE {
      return;
    }
    PutExtension(e, name, len, base);
  }

  // ----- read_name -----

  /** What read_name is to find at `pos`: the end of the directory, a short entry, or the long entries of `long`. */
  ghost predicate Readable(dir: Dir, pos: int, long: seq<int>, deleted: bool) {
    dir(pos)[0] == 0 || Attr(dir(pos)) != ATTR_LONG_NAME || LaidOut(dir, pos, long, deleted)
  }

  /** The bytes of the name that is read at `pos`. */
  ghost function NameAt(dir: Dir, pos: int, long: seq<int>, deleted: bool): seq<Byte>
    requires Readable(dir, pos, long, deleted) && dir(pos)[0] != 0
  {
    if Attr(dir(pos)) != ATTR_LONG_NAME then ShortName(dir(pos)) else EncodeAll(Seen(long, deleted))
  }

  /** How many long entries come before the short one. */
  ghost function Before(dir: Dir, pos: int, long: seq<int>): nat {
    if Attr(dir(pos)) != ATTR_LONG_NAME then 0 else EntriesFor(|long|)
  }

  /** There is no name to be read at `pos`: the directory ends there, or the long entries go beyond it. */
  ghost predicate Nothing(dir: Dir, pos: int, max: nat, long: seq<int>) {
    dir(pos)[0] == 0 || Before(dir, pos, long) > max
  }

  /** The units of a name, and a zero behind them, go into the caller's buffer. */
  method PutName(buf: array<int>, name: array<Byte>, ghost units: seq<int>) returns (ok: bool)
    requires LongName(units) && buf.Length == 256
    requires forall i | 0 <= i < 256 :: buf[i] == if i < |units| then units[i] else 0
    modifies name
    ensures ok <==> |EncodeAll(units)| < name.Length
    ensures ok ==> Ends(name[..], 0) && Text(name[..], 0) == EncodeAll(units)
  {
    var size;
    size, ok := StrUnicodeToUtf8(buf, name, units);
    if ok {
      NoZeroInAll(units);
      assert forall i | 0 <= i < size :: name[..][i] == name[..size][i];
      EndIs(name[..], 0, size);
    }
  }

  /** read_name: -1 at the end of the directory and where the long entries go beyond it; otherwise the number of long
      entries, and the name. Nothing keeps the name within the caller's buffer: `ok` is false where it is written past
      the end. */
  method ReadName(dir: Dir, pos: int, name: array<Byte>, max: nat, ghost long: seq<int>, ghost deleted: bool)
    returns (ret: int, ok: bool)
    requires Readable(dir, pos, long, deleted) && name.Length >= 13
    modifies name
    ensures ok <==> Nothing(dir, pos, max, long) || |NameAt(dir, pos, long, deleted)| < name.Length
    ensures ok ==> ret == if Nothing(dir, pos, max, long) then -1 else Before(dir, pos, long)
    ensures ok && ret != -1 ==> Ends(name[..], 0) && Text(name[..], 0) == NameAt(dir, pos, long, deleted)
  {
    if dir(pos)[0] == 0 {
      return -1, true;
    }
    if Attr(dir(pos)) != ATTR_LONG_NAME {
      ReadShort(dir(pos), name);
      return 0, true;
    }
    LaidOutRun(dir, pos, long, deleted);
    var count := CountRun(dir, pos, max, EntriesFor(|long|));
    if count == -1 {
      return -1, true;
    }
    var buf := new int[256](_ => 0);
    ok := Collect(dir, pos, count, buf, long, deleted);
    if !ok {
      return -1, true;
    }
    ok := PutName(buf, name, Seen(long, deleted));
    ret := count;
  }

  // ----- Names that do not fit -----

  ghost function Repeated(unit: int, n: nat): seq<int> { seq(n, _ => unit) }

  lemma {:induction false} RepeatedSize(unit: int, n: nat)
    requires 0x800 <= unit < 0x1_0000
    ensures |EncodeAll(Repeated(unit, n))| == 3 * n
  {
    if n > 0 {
      RepeatedSize(unit, n - 1);
      assert Repeated(unit, n)[..n - 1] == Repeated(unit, n - 1);
    }
  }

  /** A legal name of 86 units of three bytes each takes 258 bytes, and a file's name buffer has 256. */
  lemma NameOverflows()
    ensures LongName(Repeated(0x4E00, 86)) && |EncodeAll(Repeated(0x4E00, 86))| == 258
  {
    RepeatedSize(0x4E00, 86);
  }
}
