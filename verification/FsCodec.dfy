/** The on-disk formats of kernel/simplefs.c: little-endian words, the superblock and the
    64-byte directory entries, eight to a sector. */
module FsCodec {

  const SECTOR_SIZE: nat := 512
  const MAGIC: nat := 0x31534653
  const VERSION: nat := 1
  const DIR_START: nat := 1
  const DIR_SECTORS: nat := 4
  const DATA_START: nat := 5
  const MAX_FILES: nat := 32
  const NAME_MAX: nat := 32
  const MAX_TRACKED: nat := 4096
  const ENTRY_SIZE: nat := 64

  type Byte = x: int | 0 <= x < 256
  type Word = x: int | 0 <= x < 0x1_0000_0000
  type Sector = s: seq<Byte> | |s| == SECTOR_SIZE witness seq(SECTOR_SIZE, _ => 0)
  type NameField = s: seq<Byte> | |s| == NAME_MAX witness seq(NAME_MAX, _ => 0)

  function ZeroSector(): Sector { seq(SECTOR_SIZE, _ => 0) }

  // ---------- words ----------

  function PutWord(w: Word): (b: seq<Byte>)
    ensures |b| == 4
  {
    var n0: int := w;
    var n1 := n0 / 256;
    var n2 := n1 / 256;
    var n3 := n2 / 256;
    [n0 % 256, n1 % 256, n2 % 256, n3]
  }

  function GetWord(b: seq<Byte>, at: nat): Word
    requires at + 4 <= |b|
  {
    (b[at] as int) + 256 * (b[at + 1] as int) + 65536 * (b[at + 2] as int) + 16777216 * (b[at + 3] as int)
  }

  lemma WordRoundTrip(w: Word, b: seq<Byte>, at: nat)
    requires at + 4 <= |b| && b[at..at + 4] == PutWord(w)
    ensures GetWord(b, at) == w
  {
    var c := b[at..at + 4];
    assert b[at] == c[0] && b[at + 1] == c[1] && b[at + 2] == c[2] && b[at + 3] == c[3];
  }

  /** The lowest byte of a word comes first. */
  lemma WordLayout(w: Word)
    ensures var b := PutWord(w);
      w as int == (b[0] as int) + 0x100 * (b[1] as int) + 0x1_0000 * (b[2] as int) + 0x100_0000 * (b[3] as int)
  {
  }

  // ---------- directory entries ----------

  datatype DirEntry = DirEntry(
    used: Word, name: NameField, start: Word, size: Word, alloc: Word, flags: Word,
    reserved0: Word, reserved1: Word, reserved2: Word)

  function Encode(e: DirEntry): (b: seq<Byte>)
    ensures |b| == ENTRY_SIZE
  {
    PutWord(e.used) + e.name + PutWord(e.start) + PutWord(e.size) + PutWord(e.alloc) + PutWord(e.flags) +
    PutWord(e.reserved0) + PutWord(e.reserved1) + PutWord(e.reserved2)
  }

  function Decode(b: seq<Byte>): DirEntry
    requires |b| == ENTRY_SIZE
  {
    DirEntry(GetWord(b, 0), b[4..36], GetWord(b, 36), GetWord(b, 40), GetWord(b, 44), GetWord(b, 48),
             GetWord(b, 52), GetWord(b, 56), GetWord(b, 60))
  }

  lemma EntryRoundTrip(e: DirEntry)
    ensures Decode(Encode(e)) == e
  {
    var b := Encode(e);
    assert b[0..4] == PutWord(e.used);
    assert b[4..36] == e.name;
    assert b[36..40] == PutWord(e.start);
    assert b[40..44] == PutWord(e.size);
    assert b[44..48] == PutWord(e.alloc);
    assert b[48..52] == PutWord(e.flags);
    assert b[52..56] == PutWord(e.reserved0);
    assert b[56..60] == PutWord(e.reserved1);
    assert b[60..64] == PutWord(e.reserved2);
    WordRoundTrip(e.used, b, 0);
    WordRoundTrip(e.start, b, 36);
    WordRoundTrip(e.size, b, 40);
    WordRoundTrip(e.alloc, b, 44);
    WordRoundTrip(e.flags, b, 48);
    WordRoundTrip(e.reserved0, b, 52);
    WordRoundTrip(e.reserved1, b, 56);
    WordRoundTrip(e.reserved2, b, 60);
  }

  /** The fields of an entry follow one another as in struct simplefs_dir_entry. */
  lemma EntryLayout(e: DirEntry)
    ensures var b := Encode(e);
      var name := 4; var start := name + 32; var size := start + 4; var alloc := size + 4; var flags := alloc + 4; var reserved := flags + 4;
      && |b| == reserved + 12
      && b[..name] == PutWord(e.used) && b[name..start] == e.name && b[start..size] == PutWord(e.start)
      && b[size..alloc] == PutWord(e.size) && b[alloc..flags] == PutWord(e.alloc) && b[flags..reserved] == PutWord(e.flags)
  {
  }

  /** Eight entries fill a sector, from sector 1 on, one after the other. */
  lemma EntryPlace(index: nat)
    ensures (EntrySector(index) - 1) * 512 + EntryOffset(index) == index * 64
  {
  }

  /** Where an entry lives. */
  function EntrySector(index: nat): nat { DIR_START + index / 8 }

  function EntryOffset(index: nat): (k: nat)
    ensures k + ENTRY_SIZE <= SECTOR_SIZE
  {
    (index % 8) * 64
  }

  function ReadEntry(disk: seq<Sector>, index: nat): DirEntry
    requires |disk| > DATA_START && index < MAX_FILES
  {
    Decode(disk[EntrySector(index)][EntryOffset(index)..EntryOffset(index) + ENTRY_SIZE])
  }

  function Splice(s: Sector, at: nat, b: seq<Byte>): Sector
    requires at + |b| <= SECTOR_SIZE
  {
    s[..at] + b + s[at + |b|..]
  }

  function WriteEntry(disk: seq<Sector>, index: nat, e: DirEntry): (d: seq<Sector>)
    requires |disk| > DATA_START && index < MAX_FILES
    ensures |d| == |disk|
  {
    disk[EntrySector(index) := Splice(disk[EntrySector(index)], EntryOffset(index), Encode(e))]
  }

  lemma SlotsApart(i: nat, j: nat)
    requires i != j && EntrySector(i) == EntrySector(j)
    ensures EntryOffset(i) + ENTRY_SIZE <= EntryOffset(j) || EntryOffset(j) + ENTRY_SIZE <= EntryOffset(i)
  {
    assert i == 8 * (i / 8) + i % 8 && j == 8 * (j / 8) + j % 8;
  }

  /** A written entry is read back; the other entries, the superblock and the data are not
      touched. */
  lemma EntryStored(disk: seq<Sector>, index: nat, e: DirEntry)
    requires |disk| > DATA_START && index < MAX_FILES
    ensures forall j :: 0 <= j < MAX_FILES ==>
              ReadEntry(WriteEntry(disk, index, e), j) == if j == index then e else ReadEntry(disk, j)
    ensures forall k :: 0 <= k < |disk| && !(DIR_START <= k < DATA_START) ==> WriteEntry(disk, index, e)[k] == disk[k]
  {
    var d := WriteEntry(disk, index, e);
    EntryRoundTrip(e);
    hide Decode, Encode, EntryOffset, EntrySector;
    forall j | 0 <= j < MAX_FILES
      ensures ReadEntry(d, j) == if j == index then e else ReadEntry(disk, j)
    {
      var a, b := EntryOffset(j), EntryOffset(j) + ENTRY_SIZE;
      if EntrySector(j) == EntrySector(index) {
        if j == index {
          assert d[EntrySector(j)][a..b] == Encode(e);
        } else {
          SlotsApart(j, index);
          assert d[EntrySector(j)][a..b] == disk[EntrySector(j)][a..b];
        }
      }
    }
  }

  // ---------- superblock ----------

  datatype Superblock = Superblock(
    magic: Word, version: Word, sectorSize: Word, total: Word, dirStart: Word, dirSectors: Word,
    dataStart: Word, nextFree: Word, maxFiles: Word)

  function SuperBytes(sb: Superblock): (b: seq<Byte>)
    ensures |b| == 36
  {
    PutWord(sb.magic) + PutWord(sb.version) + PutWord(sb.sectorSize) + PutWord(sb.total) + PutWord(sb.dirStart) +
    PutWord(sb.dirSectors) + PutWord(sb.dataStart) + PutWord(sb.nextFree) + PutWord(sb.maxFiles)
  }

  /** simplefs_write_superblock: the words, then zeros. */
  function SuperSector(sb: Superblock): Sector {
    SuperBytes(sb) + seq(SECTOR_SIZE - 36, _ => 0)
  }

  function ReadSuper(s: Sector): Superblock {
    Superblock(GetWord(s, 0), GetWord(s, 4), GetWord(s, 8), GetWord(s, 12), GetWord(s, 16),
               GetWord(s, 20), GetWord(s, 24), GetWord(s, 28), GetWord(s, 32))
  }

  /** The words of the superblock follow one another as in struct simplefs_superblock. */
  lemma SuperLayout(sb: Superblock)
    ensures var s := SuperSector(sb);
      && s[0..4] == PutWord(sb.magic) && s[4..8] == PutWord(sb.version) && s[8..12] == PutWord(sb.sectorSize)
      && s[12..16] == PutWord(sb.total) && s[16..20] == PutWord(sb.dirStart) && s[20..24] == PutWord(sb.dirSectors)
      && s[24..28] == PutWord(sb.dataStart) && s[28..32] == PutWord(sb.nextFree) && s[32..36] == PutWord(sb.maxFiles)
      && forall k :: 36 <= k < 512 ==> s[k] == 0
  {
  }

  lemma SuperRoundTrip(sb: Superblock)
    ensures ReadSuper(SuperSector(sb)) == sb
  {
    var s := SuperSector(sb);
    assert s[0..4] == PutWord(sb.magic);
    assert s[4..8] == PutWord(sb.version);
    assert s[8..12] == PutWord(sb.sectorSize);
    assert s[12..16] == PutWord(sb.total);
    assert s[16..20] == PutWord(sb.dirStart);
    assert s[20..24] == PutWord(sb.dirSectors);
    assert s[24..28] == PutWord(sb.dataStart);
    assert s[28..32] == PutWord(sb.nextFree);
    assert s[32..36] == PutWord(sb.maxFiles);
    WordRoundTrip(sb.magic, s, 0);
    WordRoundTrip(sb.version, s, 4);
    WordRoundTrip(sb.sectorSize, s, 8);
    WordRoundTrip(sb.total, s, 12);
    WordRoundTrip(sb.dirStart, s, 16);
    WordRoundTrip(sb.dirSectors, s, 20);
    WordRoundTrip(sb.dataStart, s, 24);
    WordRoundTrip(sb.nextFree, s, 28);
    WordRoundTrip(sb.maxFiles, s, 32);
  }
}
