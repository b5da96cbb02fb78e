/** SimpleFS as a state: the directory and the extents on disk, the sector bitmap kept in
    memory, and the finite map from names to byte strings that they stand for. */
module FsState {
  import opened FsCodec

  type Name = seq<Byte>

  predicate Live(e: DirEntry) { e.used != 0 }

  predicate InExtent(e: DirEntry, s: int) { Live(e) && e.start <= s < e.start + e.alloc }

  /** A name as strcmp sees it: the bytes before the first zero. */
  function CString(b: seq<Byte>): (n: Name)
    ensures |n| <= |b| && 0 !in n && n <= b
    ensures |n| < |b| ==> b[|n|] == 0
  {
    if b == [] || b[0] == 0 then [] else [b[0]] + CString(b[1..])
  }

  function NameOf(e: DirEntry): Name { CString(e.name) }

  /** simplefs_copy_name into a cleared field. */
  function Pad(n: Name): (f: NameField)
    requires |n| < NAME_MAX
    ensures n <= f
  {
    n + seq(NAME_MAX - |n|, _ => 0)
  }

  lemma PadRoundTrip(n: Name)
    requires |n| < NAME_MAX && 0 !in n
    ensures CString(Pad(n)) == n
  {
    PrefixUnique(Pad(n), n);
  }

  lemma PrefixUnique(b: seq<Byte>, n: Name)
    requires 0 !in n && n <= b && |n| < |b| && b[|n|] == 0
    ensures CString(b) == n
  {
    if n != [] {
      assert b[0] == n[0] && n[0] in n;
      PrefixUnique(b[1..], n[1..]);
      assert n == [n[0]] + n[1..];
    }
  }

  function Dir(disk: seq<Sector>): (d: seq<DirEntry>)
    requires |disk| > DATA_START
    ensures |d| == MAX_FILES
    ensures forall i :: 0 <= i < MAX_FILES ==> d[i] == ReadEntry(disk, i)
  {
    seq(MAX_FILES, i requires 0 <= i < MAX_FILES => ReadEntry(disk, i))
  }

  /** The sector of an extent that holds byte p of the file, and the place in it. */
  function SectorOf(p: nat): (k: nat)
    ensures k * 512 <= p < k * 512 + 512
  {
    p / 512
  }

  function OffsetIn(p: nat): (k: nat)
    ensures k < 512 && p == SectorOf(p) * 512 + k
  {
    p % 512
  }

  function ByteAt(disk: seq<Sector>, start: nat, p: nat): Byte
    requires start + SectorOf(p) < |disk|
  {
    disk[start + SectorOf(p)][OffsetIn(p)]
  }

  /** The extent of a live entry lies in the data area, and the file fits in it. */
  ghost predicate Placed(e: DirEntry, total: nat) {
    && (Live(e) && e.alloc > 0 ==> DATA_START <= e.start && e.start + e.alloc <= total)
  }

  ghost predicate Fits(e: DirEntry) { Live(e) ==> e.size <= e.alloc * 512 }

  ghost predicate Apart(e: DirEntry, f: DirEntry) { forall s :: !(InExtent(e, s) && InExtent(f, s)) }

  /** What rebuild_allocation_map demands of a directory. */
  ghost predicate Sound(dir: seq<DirEntry>, total: nat) {
    && (forall i :: 0 <= i < |dir| ==> Placed(dir[i], total))
    && (forall i, j :: 0 <= i < j < |dir| ==> Apart(dir[i], dir[j]))
  }

  ghost predicate Occupied(dir: seq<DirEntry>, s: int) {
    s < DATA_START || exists i :: 0 <= i < |dir| && InExtent(dir[i], s)
  }

  /** The bitmap is the metadata area plus the union of the extents. */
  ghost predicate BitmapExact(dir: seq<DirEntry>, used: seq<bool>) {
    forall s :: 0 <= s < |used| ==> (used[s] <==> Occupied(dir, s))
  }

  predicate ValidName(n: Name) {
    && 0 < |n| < NAME_MAX && 0 !in n && SLASH !in n && n != [DOT] && n != [DOT, DOT]
  }

  const SLASH: Byte := 47
  const DOT: Byte := 46

  ghost predicate NamesUnique(dir: seq<DirEntry>) {
    && (forall i :: 0 <= i < |dir| && Live(dir[i]) ==> ValidName(NameOf(dir[i])))
    && (forall i, j :: 0 <= i < j < |dir| && Live(dir[i]) && Live(dir[j]) ==> NameOf(dir[i]) != NameOf(dir[j]))
  }

  /** Past the end of the file, the extent holds zeros. */
  ghost predicate ZeroTail(disk: seq<Sector>, e: DirEntry)
    requires Placed(e, |disk|)
  {
    Live(e) ==> forall p: nat :: e.size <= p < e.alloc * 512 ==> ByteAt(disk, e.start, p) == 0
  }

  ghost function Content(disk: seq<Sector>, e: DirEntry): (c: seq<Byte>)
    requires Live(e) && Placed(e, |disk|) && Fits(e)
    ensures |c| == e.size
    ensures forall p :: 0 <= p < e.size ==> c[p] == ByteAt(disk, e.start, p)
  {
    seq(e.size, p requires 0 <= p < e.size => ByteAt(disk, e.start, p))
  }

  /** Byte p of a file is byte p % 512 of sector p / 512 of its extent. */
  lemma ContentMeans(disk: seq<Sector>, e: DirEntry, p: nat)
    requires Live(e) && Placed(e, |disk|) && Fits(e) && p < e.size
    ensures e.start + p / 512 < |disk| && Content(disk, e)[p] == disk[e.start + p / 512][p % 512]
  {
  }

  /** A sector is taken exactly if it is one of the first five or lies in the extent of a file. */
  lemma BitmapMeans(dir: seq<DirEntry>, used: seq<bool>, s: nat)
    requires BitmapExact(dir, used) && s < |used|
    ensures used[s] <==> s < 5 || exists i :: 0 <= i < |dir| && dir[i].used != 0 && dir[i].start <= s && s < dir[i].start + dir[i].alloc
  {
  }

  /** A name has 1 to 31 bytes, none of them a slash or NUL, and is not that of this or the parent
      directory. */
  lemma ValidNameMeans(n: Name)
    ensures ValidName(n) <==>
      1 <= |n| <= 31 && (forall k :: 0 <= k < |n| ==> n[k] != 0 && n[k] != '/' as int) && n != ['.' as int] && n != ['.' as int, '.' as int]
  {
  }

  ghost predicate DiskOk(disk: seq<Sector>) {
    && DATA_START < |disk| <= MAX_TRACKED
    && var dir := Dir(disk);
       && Sound(dir, |disk|)
       && NamesUnique(dir)
       && (forall i :: 0 <= i < MAX_FILES ==> Fits(dir[i]) && ZeroTail(disk, dir[i]))
  }

  /** The superblock in memory is the one on disk and describes this device. */
  ghost predicate SuperOk(disk: seq<Sector>, sb: Superblock) {
    && |disk| > DATA_START
    && disk[0] == SuperSector(sb)
    && GoodSuper(sb, |disk|)
  }

  /** The checks of simplefs_mount. */
  predicate GoodSuper(sb: Superblock, total: nat) {
    && sb.magic == MAGIC && sb.version == VERSION && sb.sectorSize == SECTOR_SIZE && sb.total == total
    && sb.dirStart == DIR_START && sb.dirSectors == DIR_SECTORS && sb.dataStart == DATA_START
    && sb.maxFiles == MAX_FILES && DATA_START <= sb.nextFree <= total
  }

  /** A superblock is good exactly if it names this format and this layout, for a device of this size. */
  lemma GoodSuperMeans(sb: Superblock, total: nat)
    ensures GoodSuper(sb, total) <==>
      && sb.magic == 'S' as int + 0x100 * ('F' as int) + 0x1_0000 * ('S' as int) + 0x100_0000 * ('1' as int)
      && sb.version == 1 && sb.sectorSize == 512 && sb.total == total && sb.dirStart == 1 && sb.dirSectors == 4
      && sb.dataStart == 5 && sb.maxFiles == 32 && 5 <= sb.nextFree <= total
  {
  }

  /** The files of a disk. */
  ghost function Files(disk: seq<Sector>): map<Name, seq<Byte>>
    requires DiskOk(disk)
  {
    map i | 0 <= i < MAX_FILES && Live(Dir(disk)[i]) :: NameOf(Dir(disk)[i]) := Content(disk, Dir(disk)[i])
  }
}
