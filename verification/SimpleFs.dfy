/** kernel/simplefs.c: the file system on a device of 512-byte sectors. */
module SimpleFs {
  import opened FsCodec
  import opened FsState
  import opened FsLemmas

  datatype Status = Ok | Einval | Enoent | Enospc | Eio | Emfile | Ebadf

  /** A run of free sectors inside the device. */
  ghost predicate FreeRun(used: seq<bool>, start: int, count: nat) {
    0 <= start && start + count <= |used| && forall s :: start <= s < start + count ==> !used[s]
  }

  lemma RunsMean(used: seq<bool>, start: nat, count: nat, v: bool)
    ensures FreeRun(used, start, count) <==> start + count <= |used| && used[start..start + count] == seq(count, _ => false)
    ensures |Marked(used, start, count, v)| == |used|
    ensures start + count <= |used| ==>
      Marked(used, start, count, v) == used[..start] + seq(count, _ => v) + used[start + count..]
  {
    if start + count <= |used| {
      assert forall s :: start <= s < start + count ==> used[s] == used[start..start + count][s - start];
    }
  }

  ghost function Marked(used: seq<bool>, start: nat, count: nat, v: bool): (r: seq<bool>)
    ensures |r| == |used|
  {
    seq(|used|, s requires 0 <= s < |used| => if start <= s < start + count then v else used[s])
  }

  class FileSystem {
    var disk: seq<Sector>
    var used: seq<bool>
    var sb: Superblock
    var mounted: bool

    /** A mounted file system: disk, superblock and bitmap agree. */
    ghost predicate Valid()
      reads this
    {
      mounted && DiskOk(disk) && SuperOk(disk, sb) && |used| == |disk| && BitmapExact(Dir(disk), used)
    }

    /** simplefs_mark_run_used */
    method MarkRunUsed(start: nat, count: nat) returns (status: Status)
      requires |used| == sb.total
      modifies this`used
      ensures |used| == |old(used)|
      ensures status == Ok <==> count == 0 || (DATA_START <= start && FreeRun(old(used), start, count))
      ensures status == Ok ==> used == Marked(old(used), start, count, true)
      ensures status == Ok || status == Eio
    {
      if count == 0 {
        assert used == Marked(old(used), start, count, true);
        return Ok;
      }
      if start < DATA_START || start >= sb.total || count > sb.total - start {
        return Eio;
      }
      for i := 0 to count
        invariant |used| == |old(used)|
        invariant forall s :: start <= s < start + i ==> !old(used[s])
        invariant used == Marked(old(used), start, i, true)
      {
        if used[start + i] {
          return Eio;
        }
        used := used[start + i := true];
        assert used == Marked(old(used), start, i + 1, true);
      }
      return Ok;
    }

    /** simplefs_mark_run_free */
    method MarkRunFree(start: nat, count: nat)
      requires |used| == sb.total
      modifies this`used
      ensures |used| == |old(used)|
      ensures used == if DATA_START <= start && start + count <= |used| then Marked(old(used), start, count, false)
                      else old(used)
    {
      if count == 0 || start < DATA_START || start >= sb.total || count > sb.total - start {
        assert count == 0 ==> used == Marked(old(used), start, count, false);
        return;
      }
      for i := 0 to count
        invariant |used| == |old(used)| && used == Marked(old(used), start, i, false)
      {
        used := used[start + i := false];
        assert used == Marked(old(used), start, i + 1, false);
      }
    }

    /** simplefs_allocate_sectors: the search jumps past the sector that blocks it and still
        finds the lowest run; it fails exactly when there is no run. */
    method AllocateSectors(count: nat) returns (status: Status, start: nat)
      requires |used| == |disk| == sb.total > DATA_START && count > 0
      modifies this`used, this`sb, this`disk
      ensures status == Ok || status == Enospc
      ensures status == Enospc <==> forall s :: DATA_START <= s ==> !FreeRun(old(used), s, count)
      ensures status == Enospc ==> used == old(used) && sb == old(sb) && disk == old(disk)
      ensures status == Ok ==>
        && DATA_START <= start && FreeRun(old(used), start, count)
        && (forall s :: DATA_START <= s < start ==> !FreeRun(old(used), s, count))
        && used == Marked(old(used), start, count, true)
        && sb == old(sb).(nextFree := if start + count > old(sb).nextFree then start + count else old(sb).nextFree)
        && disk == old(disk)[0 := SuperSector(sb)]
    {
      if count > sb.total - DATA_START {
        return Enospc, 0;
      }
      start := DATA_START;
      while start <= sb.total - count
        invariant DATA_START <= start
        invariant forall s :: DATA_START <= s < start ==> !FreeRun(used, s, count)
        decreases sb.total - count - start
      {
        var run := 0;
        while run < count && !used[start + run]
          invariant run <= count
          invariant forall s :: start <= s < start + run ==> !used[s]
        {
          run := run + 1;
        }
        if run == count {
          var marked := MarkRunUsed(start, count);
          if start + count > sb.nextFree {
            sb := sb.(nextFree := start + count);
          }
          disk := disk[0 := SuperSector(sb)];
          return Ok, start;
        }
        assert used[start + run];
        start := start + run + 1;
      }
      return Enospc, 0;
    }

    /** simplefs_rebuild_allocation_map: succeeds exactly on a sound directory, and then the
        bitmap is the metadata area plus the union of the extents. */
    method RebuildAllocationMap() returns (status: Status)
      requires DATA_START < |disk| <= MAX_TRACKED && sb.total == |disk|
      modifies this`used, this`sb, this`disk
      ensures |used| == |disk| == |old(disk)|
      ensures status == Ok || status == Eio
      ensures status == Ok <==> Sound(Dir(old(disk)), |disk|)
      ensures status == Ok ==>
        && BitmapExact(Dir(old(disk)), used)
        && DATA_START <= sb.nextFree <= |disk| && sb == old(sb).(nextFree := sb.nextFree)
        && disk == old(disk)[0 := SuperSector(sb)]
      ensures status != Ok ==> disk == old(disk) && sb == old(sb)
    {
      hide ReadEntry;
      used := seq(|disk|, s => s < DATA_START);
      var highWater := DATA_START;
      ghost var dir := Dir(disk);
      for i := 0 to MAX_FILES
        invariant disk == old(disk) && sb == old(sb)
        invariant |used| == |disk| && DATA_START <= highWater <= |disk|
        invariant forall s :: 0 <= s < |used| ==> (used[s] <==> Occupied(dir[..i], s))
        invariant Sound(dir[..i], |disk|)
      {
        var entry := ReadEntry(disk, i);
        assert entry == dir[i];
        if entry.used == 0 || entry.alloc == 0 {
          SoundGrows(dir, i, |disk|);
          OccupiedGrows(dir, i);
          continue;
        }
        if entry.start < DATA_START || entry.start >= sb.total || entry.alloc > sb.total - entry.start {
          assert !Placed(dir[i], |disk|);
          return Eio;
        }
        ghost var before := used;
        var marked := MarkRunUsed(entry.start, entry.alloc);
        if marked != Ok {
          Clash(dir, i, before, |disk|);
          return marked;
        }
        ApartFromEarlier(dir, i, before);
        SoundGrows(dir, i, |disk|);
        OccupiedGrows(dir, i);
        if entry.start + entry.alloc > highWater {
          highWater := entry.start + entry.alloc;
        }
      }
      assert dir[..MAX_FILES] == dir;
      sb := sb.(nextFree := highWater);
      disk := disk[0 := SuperSector(sb)];
      return Ok;
    }

    /** simplefs_format: an empty file system on the device. */
    method Format() returns (status: Status)
      modifies this
      ensures status == Ok <==> DATA_START < |old(disk)| <= MAX_TRACKED
      ensures status != Ok ==> status == Einval
      ensures status == Ok ==> Valid() && |disk| == |old(disk)| && Files(disk) == map[]
    {
      hide ReadEntry;
      if |disk| <= DATA_START || |disk| > MAX_TRACKED {
        return Einval;
      }
      sb := Superblock(MAGIC, VERSION, SECTOR_SIZE, |disk|, DIR_START, DIR_SECTORS, DATA_START, DATA_START, MAX_FILES);
      disk := disk[0 := SuperSector(sb)];
      ghost var super0 := sb;
      for i := 0 to DIR_SECTORS
        invariant sb == super0 && |disk| == |old(disk)| && disk[0] == SuperSector(sb)
        invariant forall k :: DIR_START <= k < DIR_START + i ==> disk[k] == ZeroSector()
      {
        disk := disk[DIR_START + i := ZeroSector()];
      }
      EmptyDirectory(disk);
      ghost var blank := disk;
      status := RebuildAllocationMap();
      SuperChange(blank, SuperSector(sb));
      mounted := status == Ok;
    }

    /** simplefs_mount: accepts a device whose superblock describes it and whose directory is
        sound; remounting a mounted file system reproduces its bitmap and files. */
    method Mount() returns (status: Status)
      modifies this
      ensures status == Ok <==>
        && DATA_START < |old(disk)| <= MAX_TRACKED
        && GoodSuper(ReadSuper(old(disk)[0]), |old(disk)|) && Sound(Dir(old(disk)), |old(disk)|)
      ensures status == Ok ==>
        mounted && |disk| == |old(disk)| == |used| && BitmapExact(Dir(disk), used) && SuperOk(disk, sb) && disk[1..] == old(disk)[1..]
      ensures old(Valid()) ==>
        status == Ok && Valid() && used == old(used) && Files(disk) == old(Files(disk))
    {
      hide ReadEntry;
      if |disk| <= DATA_START || |disk| > MAX_TRACKED {
        return Einval;
      }
      ghost var before := sb;
      sb := ReadSuper(disk[0]);
      SuperRoundTrip(before);
      if !GoodSuper(sb, |disk|) {
        return Eio;
      }
      status := RebuildAllocationMap();
      if status != Ok {
        mounted := false;
        return;
      }
      mounted := true;
      DirUntouched(old(disk), disk);
      if old(Valid()) {
        SuperChange(old(disk), SuperSector(sb));
        SameBitmap(Dir(disk), old(used), used);
      }
    }

    /** simplefs_find_entry: the first live entry of that name. */
    method FindEntry(name: Name) returns (found: bool, index: nat)
      requires |disk| > DATA_START
      ensures found ==> index < MAX_FILES && Live(Dir(disk)[index]) && NameOf(Dir(disk)[index]) == name
      ensures !found ==> forall i :: 0 <= i < MAX_FILES ==> !(Live(Dir(disk)[i]) && NameOf(Dir(disk)[i]) == name)
    {
      hide ReadEntry, NameOf, Live;
      for i := 0 to MAX_FILES
        invariant forall k :: 0 <= k < i ==> !(Live(Dir(disk)[k]) && NameOf(Dir(disk)[k]) == name)
      {
        var entry := ReadEntry(disk, i);
        if Live(entry) && NameOf(entry) == name {
          return true, i;
        }
      }
      return false, 0;
    }

    /** simplefs_find_free_entry */
    method FindFreeEntry() returns (found: bool, index: nat)
      requires |disk| > DATA_START
      ensures found ==> index < MAX_FILES && !Live(Dir(disk)[index])
      ensures !found ==> forall i :: 0 <= i < MAX_FILES ==> Live(Dir(disk)[i])
    {
      hide ReadEntry, Live;
      for i := 0 to MAX_FILES
        invariant forall k :: 0 <= k < i ==> Live(Dir(disk)[k])
      {
        var entry := ReadEntry(disk, i);
        if !Live(entry) {
          return true, i;
        }
      }
      return false, 0;
    }

    /** The create path of simplefs_open. */
    method CreateFile(name: Name) returns (status: Status)
      requires Valid() && ValidName(name) && name !in Files(disk)
      modifies this`disk
      ensures Valid()
      ensures status == Ok || status == Enospc
      ensures status == Enospc <==> forall i :: 0 <= i < MAX_FILES ==> Live(Dir(old(disk))[i])
      ensures status == Enospc ==> disk == old(disk)
      ensures status == Ok ==> Files(disk) == old(Files(disk))[name := []]
    {
      hide ReadEntry, WriteEntry, Content;
      var found, index := FindFreeEntry();
      if !found {
        return Enospc;
      }
      var entry := DirEntry(1, Pad(name), 0, 0, 0, 0, 0, 0, 0);
      PadRoundTrip(name);
      ghost var disk0 := disk;
      disk := WriteEntry(disk, index, entry);
      DirAfterWrite(disk0, index, entry);
      NamesDiffer(disk0, index, name);
      EntryReplaced(disk0, disk, index, entry);
      BitmapReplaced(Dir(disk0), used, used, index, entry);
      return Ok;
    }

    /** The truncate path of simplefs_open. */
    method TruncateFile(index: nat)
      requires Valid() && index < MAX_FILES && Live(Dir(disk)[index])
      modifies this`disk, this`used
      ensures Valid()
      ensures Files(disk) == old(Files(disk))[NameOf(Dir(old(disk))[index]) := []]
    {
      hide ReadEntry, WriteEntry, Content;
      var entry := ReadEntry(disk, index);
      ghost var disk0, used0 := disk, used;
      MarkRunFree(entry.start, entry.alloc);
      entry := entry.(start := 0, size := 0, alloc := 0);
      disk := WriteEntry(disk, index, entry);
      DirAfterWrite(disk0, index, entry);
      EntryReplaced(disk0, disk, index, entry);
      BitmapReplaced(Dir(disk0), used0, used, index, entry);
    }

    /** simplefs_open */
    method Open(path: seq<Byte>, create: bool, trunc: bool) returns (status: Status)
      requires (mounted ==> Valid()) && 0 !in path
      modifies this`disk, this`used
      ensures status == Eio <==> !mounted
      ensures mounted ==> Valid() && (status == Einval <==> !GoodPath(path))
      ensures !mounted || !GoodPath(path) ==> disk == old(disk) && used == old(used)
      ensures mounted && GoodPath(path) ==>
        var name, files := path[1..], old(Files(disk));
        if name in files then
          status == Ok && Files(disk) == if trunc then files[name := []] else files
        else if !create then
          status == Enoent && disk == old(disk) && used == old(used)
        else if forall i :: 0 <= i < MAX_FILES ==> Live(Dir(old(disk))[i]) then
          status == Enospc && disk == old(disk) && used == old(used)
        else
          status == Ok && Files(disk) == files[name := []]
    {
      hide ReadEntry, Content, Sound, NamesUnique, ZeroTail, SuperOk, BitmapExact, Files;
      if !mounted {
        return Eio;
      }
      var good, name := NormalizePath(path);
      if !good {
        return Einval;
      }
      var found, index := FindEntry(name);
      if !found {
        NoFile(disk, name);
        if !create {
          return Enoent;
        }
        status := CreateFile(name);
        return;
      }
      FileAt(disk, index);
      if trunc {
        TruncateFile(index);
      }
      return Ok;
    }

    /** simplefs_read: the bytes of the file from the offset, at most count of them. */
    method Read(path: seq<Byte>, offset: nat, count: nat) returns (status: Status, out: seq<Byte>)
      requires (mounted ==> Valid()) && 0 !in path
      ensures status == Eio <==> !mounted
      ensures mounted ==> (status == Einval <==> !GoodPath(path))
      ensures mounted && GoodPath(path) ==> (status == Ok <==> path[1..] in Files(disk))
      ensures status in {Ok, Eio, Einval, Enoent}
      ensures status == Ok ==> mounted && GoodPath(path) && path[1..] in Files(disk)
      ensures status == Ok ==> out == Slice(Files(disk)[path[1..]], offset, count)
      ensures status == Ok ==>
        var file := Files(disk)[path[1..]];
        && |out| == (if offset >= |file| then 0 else if offset + count <= |file| then count else |file| - offset)
        && forall i :: 0 <= i < |out| ==> out[i] == file[offset + i]
    {
      hide ReadEntry, NamesUnique, ZeroTail, SuperOk, BitmapExact, Files, Slice, Apart;
      out := [];
      if !mounted {
        return Eio, [];
      }
      var good, name := NormalizePath(path);
      if !good {
        return Einval, [];
      }
      var found, index := FindEntry(name);
      if !found {
        NoFile(disk, name);
        return Enoent, [];
      }
      FileAt(disk, index);
      SliceMeans(Files(disk)[path[1..]], offset, count);
      out := ReadBytes(index, offset, count);
      return Ok, out;
    }

    /** simplefs_stat: the size of the file. */
    method Stat(path: seq<Byte>) returns (status: Status, size: nat)
      requires (mounted ==> Valid()) && 0 !in path
      ensures status == Eio <==> !mounted
      ensures mounted ==> (status == Einval <==> !GoodPath(path))
      ensures mounted && GoodPath(path) ==> (status == Ok <==> path[1..] in Files(disk))
      ensures status in {Ok, Eio, Einval, Enoent}
      ensures status == Ok ==> mounted && GoodPath(path) && path[1..] in Files(disk) && size == |Files(disk)[path[1..]]|
    {
      hide ReadEntry, NamesUnique, ZeroTail, SuperOk, BitmapExact, Files, Apart;
      size := 0;
      if !mounted {
        return Eio, 0;
      }
      var good, name := NormalizePath(path);
      if !good {
        return Einval, 0;
      }
      var found, index := FindEntry(name);
      if !found {
        NoFile(disk, name);
        return Enoent, 0;
      }
      FileAt(disk, index);
      return Ok, ReadEntry(disk, index).size;
    }

    /** The body of simplefs_read once the entry is found. */
    method ReadBytes(index: nat, offset: nat, count: nat) returns (out: seq<Byte>)
      requires |disk| > DATA_START && index < MAX_FILES && Live(Dir(disk)[index])
      requires Placed(Dir(disk)[index], |disk|) && Fits(Dir(disk)[index])
      ensures out == Slice(Content(disk, Dir(disk)[index]), offset, count)
    {
      hide ReadEntry, SectorOf, OffsetIn, Content, ByteAt, Dir;
      var entry := ReadEntry(disk, index);
      out := [];
      ghost var content := Content(disk, entry);
      if offset >= entry.size || count == 0 {
        return;
      }
      var wanted := if count < entry.size - offset then count else entry.size - offset;
      var done := 0;
      while done < wanted
        invariant done <= wanted && offset + wanted <= entry.size
        invariant out == content[offset..offset + done]
      {
        var absolute := offset + done;
        var sectorIndex, at := SectorOf(absolute), OffsetIn(absolute);
        var chunk := if wanted - done < 512 - at then wanted - done else 512 - at;
        var sector := disk[entry.start + sectorIndex];
        ChunkContent(disk, entry, absolute, chunk);
        assert content[offset..absolute] + content[absolute..absolute + chunk] == content[offset..absolute + chunk];
        out := out + sector[at..at + chunk];
        done := done + chunk;
      }
      assert offset + wanted == |content| ==> content[offset..offset + wanted] == content[offset..];
    }

    /** simplefs_zero_run */
    method ZeroRun(start: nat, count: nat)
      requires start + count <= |disk|
      modifies this`disk
      ensures |disk| == |old(disk)|
      ensures forall s :: 0 <= s < |disk| ==> disk[s] == if start <= s < start + count then ZeroSector() else old(disk)[s]
    {
      for i := 0 to count
        invariant |disk| == |old(disk)|
        invariant forall s :: 0 <= s < |disk| ==> disk[s] == if start <= s < start + i then ZeroSector() else old(disk)[s]
      {
        disk := disk[start + i := ZeroSector()];
      }
    }

    /** simplefs_copy_file_data */
    method CopyFileData(from: nat, to: nat, count: nat)
      requires from + count <= |disk| && to + count <= |disk| && (from + count <= to || to + count <= from)
      modifies this`disk
      ensures |disk| == |old(disk)|
      ensures forall s :: 0 <= s < |disk| && !(to <= s < to + count) ==> disk[s] == old(disk)[s]
      ensures disk[to..to + count] == old(disk)[from..from + count]
    {
      for i := 0 to count
        invariant |disk| == |old(disk)|
        invariant forall s :: 0 <= s < |disk| && !(to <= s < to + i) ==> disk[s] == old(disk)[s]
        invariant disk[to..to + i] == old(disk)[from..from + i]
      {
        disk := disk[to + i := disk[from + i]];
        assert old(disk)[from..from + i + 1] == old(disk)[from..from + i] + [old(disk)[from + i]];
        assert disk[to..to + i + 1] == disk[to..to + i] + [disk[to + i]];
      }
    }

    /** simplefs_ensure_capacity: the entry gets an extent of at least `required` sectors that
        holds the file followed by zeros; growth allocates elsewhere and copies. */
    method EnsureCapacity(index: nat, required: nat) returns (status: Status, e: DirEntry)
      requires Valid() && index < MAX_FILES && Live(Dir(disk)[index]) && required < 0x1_0000_0000
      requires SectorsForBytes(Dir(disk)[index].size) <= required || required <= Dir(disk)[index].alloc
      modifies this`disk, this`used, this`sb
      ensures status == Ok || status == Enospc
      ensures required <= Dir(old(disk))[index].alloc ==>
        e == Dir(old(disk))[index] && disk == old(disk) && used == old(used) && sb == old(sb)
      ensures status == Enospc ==> disk == old(disk) && used == old(used) && sb == old(sb)
      ensures status == Enospc <==>
        required > Dir(old(disk))[index].alloc && forall s :: DATA_START <= s ==> !FreeRun(old(used), s, required)
      ensures status == Ok ==>
        && |disk| == |old(disk)| == |used| && SuperOk(disk, sb) && Dir(disk) == Dir(old(disk))
        && DiskOk(disk) && Files(disk) == old(Files(disk))
        && Grown(old(disk), disk, old(used), used, Dir(old(disk))[index], e, required)
    {
      hide ReadEntry, Content, ByteAt, SuperSector, NamesUnique, Files, SectorsForBytes, Sound, ZeroTail, BitmapExact,
           Fits, Grown;
      var entry := ReadEntry(disk, index);
      ghost var disk0, used0 := disk, used;
      EntryFacts(disk, index);
      if required <= entry.alloc {
        NotGrown(disk, used, entry, required);
        return Ok, entry;
      }
      var start;
      status, start := AllocateSectors(required);
      if status != Ok {
        return status, entry;
      }
      RunIsFree(disk0, used0, start, required);
      CopyRange(disk0, index, start, required);
      ZeroRun(start, required);
      ghost var disk2 := disk;
      if entry.size > 0 && entry.alloc > 0 {
        CopyFileData(entry.start, start, SectorsForBytes(entry.size));
      }
      e := entry.(start := start, alloc := required);
      Moved(disk0, disk2, disk, used0, used, index, start, required);
    }

    /** The loop of simplefs_write: read, splice and write back one sector at a time.  The device
        refuses a sector past its end. */
    method WriteBytes(start: nat, alloc: nat, offset: nat, data: seq<Byte>) returns (ok: bool)
      requires data != [] && (InExtentBytes(start, alloc, offset, |data|, |disk|) || start + SectorOf(offset) >= |disk|)
      modifies this`disk
      ensures ok <==> start + SectorOf(offset) < |old(disk)|
      ensures !ok ==> disk == old(disk)
      ensures |disk| == |old(disk)|
      ensures forall s :: 0 <= s < |disk| && !(start <= s < start + alloc) ==> disk[s] == old(disk)[s]
      ensures ok ==> InExtentBytes(start, alloc, offset, |data|, |disk|) && Spliced(old(disk), disk, start, alloc, offset, data)
    {
      hide ByteAt;
      var done := 0;
      var sector := ZeroSector();
      while done < |data|
        invariant done <= |data| && |disk| == |old(disk)| && (done == 0 ==> disk == old(disk))
        invariant start + SectorOf(offset) >= |disk| ==> done == 0
        invariant forall s :: 0 <= s < |disk| && !(start <= s < start + alloc) ==> disk[s] == old(disk)[s]
        invariant InExtentBytes(start, alloc, offset, |data|, |disk|) ==> Spliced(old(disk), disk, start, alloc, offset, data[..done])
      {
        var absolute := offset + done;
        var sectorIndex, at := SectorOf(absolute), OffsetIn(absolute);
        var chunk := if |data| - done < 512 - at then |data| - done else 512 - at;
        if start + sectorIndex >= |disk| {
          return false;
        }
        if chunk != SECTOR_SIZE {
          sector := disk[start + sectorIndex];
        }
        ghost var disk1, stale := disk, sector;
        sector := Splice(sector, at, data[done..done + chunk]);
        disk := disk[start + sectorIndex := sector];
        ChunkSpliced(old(disk), disk1, disk, start, alloc, offset, data, done, chunk, stale);
        done := done + chunk;
      }
      assert data[..|data|] == data;
      ok := true;
    }

    /** The end of simplefs_write: the data, the entry, and the extent that the file left. */
    method StoreFile(index: nat, e: DirEntry, offset: nat, data: seq<Byte>, newSize: nat,
                     ghost disk0: seq<Sector>, ghost used0: seq<bool>) returns (ok: bool)
      requires DiskOk(disk) && SuperOk(disk, sb) && mounted && DiskOk(disk0) && |disk0| == |disk| == |used| == |used0|
      requires Dir(disk) == Dir(disk0) && index < MAX_FILES && Live(Dir(disk)[index])
      requires BitmapExact(Dir(disk0), used0)
      requires newSize == (if offset + |data| < Dir(disk)[index].size then Dir(disk)[index].size else offset + |data|)
      requires newSize < 0x1_0000_0000 && data != []
      requires Placed(Dir(disk0)[index], |disk0|) && Fits(Dir(disk0)[index])
      requires e.start + SectorOf(offset) < |disk| ==>
        newSize <= e.alloc * 512 && exists required: nat :: Grown(disk0, disk, used0, used, Dir(disk0)[index], e, required)
      modifies this`disk, this`used
      ensures ok <==> e.start + SectorOf(offset) < |old(disk)|
      ensures !ok ==> disk == old(disk) && used == old(used)
      ensures ok ==> Valid()
      ensures ok ==> Files(disk) == old(Files(disk))[NameOf(Dir(disk0)[index]) :=
                               Overwrite(Content(disk0, Dir(disk0)[index]), offset, data)]
    {
      hide ReadEntry, WriteEntry, ByteAt, Content, Files, NameOf, ZeroTail, Apart, NamesUnique, SuperSector, Overwrite, Marked;
      var entry := ReadEntry(disk, index);
      ghost var disk1, used1 := disk, used;
      ok := WriteBytes(e.start, e.alloc, offset, data);
      if !ok {
        return;
      }
      ghost var disk2 := disk;
      var e2 := e.(size := newSize);
      disk := WriteEntry(disk, index, e2);
      DirAfterWrite(disk2, index, e2);
      if entry.alloc > 0 && e.start != entry.start {
        MarkRunFree(entry.start, entry.alloc);
      }
      ghost var required: nat :| Grown(disk0, disk1, used0, used1, Dir(disk0)[index], e, required);
      Written(disk0, disk1, disk2, disk, used0, used1, index, e, e2, offset, data, required);
      FreedOld(disk0, disk1, used0, used1, used, index, e, e2, required);
    }

    /** simplefs_write.  For a write that would end in the last 511 bytes below 2^32 the sector count
        wraps (see SectorsCover): no sector is asked for, and the data lie past the end of the device. */
    method Write(path: seq<Byte>, offset: nat, data: seq<Byte>) returns (status: Status, written: nat)
      requires (mounted ==> Valid()) && 0 !in path
      requires offset < 0x1_0000_0000 && |data| < 0x1_0000_0000
      requires Wraps(offset + |data|) ==> offset >= MAX_TRACKED * 512
      modifies this`disk, this`used, this`sb
      ensures mounted ==> Valid()
      ensures status != Ok || data == [] ==> disk == old(disk) && used == old(used) && sb == old(sb) && written == 0
      ensures status == Eio <==>
        !mounted || (data != [] && Wraps(offset + |data|) && GoodPath(path) && path[1..] in old(Files(disk)))
      ensures mounted && data == [] ==> status == Ok
      ensures mounted && data != [] && (offset + |data| >= 0x1_0000_0000 || !GoodPath(path)) ==> status == Einval
      ensures mounted && data != [] && offset + |data| < 0x1_0000_0000 && GoodPath(path) ==>
        var name, files := path[1..], old(Files(disk));
        && (status == Enoent <==> name !in files)
        && (name in files && !Wraps(offset + |data|) ==>
              && (status == Ok || status == Enospc)
              && (status == Enospc <==> NoRoom(old(disk), old(used), name, offset + |data|))
              && (status == Ok ==>
                    written == |data| && Files(disk) == files[name := Overwrite(files[name], offset, data)]))
    {
      hide ReadEntry, Content, ByteAt, Sound, NamesUnique, ZeroTail, SuperOk, BitmapExact, Files, Overwrite, NameOf, Grown,
           SectorsForBytes, ValidName, Marked;
      written := 0;
      if !mounted {
        return Eio, 0;
      }
      if |data| == 0 {
        return Ok, 0;
      }
      if (offset + |data|) % 0x1_0000_0000 < offset {
        return Einval, 0;
      }
      var good, name := NormalizePath(path);
      if !good {
        return Einval, 0;
      }
      var found, index := FindEntry(name);
      if !found {
        NoFile(disk, name);
        return Enoent, 0;
      }
      FileAt(disk, index);
      EntryFacts(disk, index);
      ghost var disk0, used0 := disk, used;
      var size := ReadEntry(disk, index).size;
      var newSize := if offset + |data| < size then size else offset + |data|;
      WrapsIff(disk, index, offset, |data|);
      if !Wraps(offset + |data|) {
        RoomNeeded(disk, used, index, name, offset + |data|, newSize);
      }
      var e;
      status, e := EnsureCapacity(index, SectorsForBytes(newSize));
      if status != Ok {
        return status, 0;
      }
      if !Wraps(offset + |data|) {
        GrownCovers(disk0, disk, used0, used, Dir(disk0)[index], e, newSize, offset);
      }
      var ok := StoreFile(index, e, offset, data, newSize, disk0, used0);
      if !ok {
        return Eio, 0;
      }
      return Ok, |data|;
    }
  }

  lemma SoundGrows(dir: seq<DirEntry>, i: nat, total: nat)
    requires i < |dir| && Sound(dir[..i], total) && Placed(dir[i], total)
    requires forall k :: 0 <= k < i ==> Apart(dir[k], dir[i])
    ensures Sound(dir[..i + 1], total)
  {
    hide Apart, Placed;
    assert dir[..i + 1] == dir[..i] + [dir[i]];
  }

  lemma OccupiedGrows(dir: seq<DirEntry>, i: nat)
    requires i < |dir|
    ensures forall s :: Occupied(dir[..i + 1], s) <==> Occupied(dir[..i], s) || InExtent(dir[i], s)
  {
    hide InExtent;
    assert dir[..i + 1] == dir[..i] + [dir[i]];
    forall s
      ensures Occupied(dir[..i + 1], s) <==> Occupied(dir[..i], s) || InExtent(dir[i], s)
    {
      if Occupied(dir[..i], s) && s >= DATA_START {
        var k :| 0 <= k < i && InExtent(dir[..i][k], s);
        assert InExtent(dir[..i + 1][k], s);
      }
      if InExtent(dir[i], s) {
        assert InExtent(dir[..i + 1][i], s);
      }
      if Occupied(dir[..i + 1], s) && s >= DATA_START {
        var k :| 0 <= k < i + 1 && InExtent(dir[..i + 1][k], s);
        assert k < i ==> InExtent(dir[..i][k], s);
      }
    }
  }

  /** If the run of entry i is free of the earlier extents, the entry is apart from them. */
  lemma ApartFromEarlier(dir: seq<DirEntry>, i: nat, used: seq<bool>)
    requires i < |dir|
    requires forall s :: 0 <= s < |used| ==> (used[s] <==> Occupied(dir[..i], s))
    requires FreeRun(used, dir[i].start, dir[i].alloc)
    ensures forall k :: 0 <= k < i ==> Apart(dir[k], dir[i])
  {
    forall k, s | 0 <= k < i && InExtent(dir[i], s)
      ensures !InExtent(dir[k], s)
    {
      assert !used[s] && !Occupied(dir[..i], s);
      assert !InExtent(dir[..i][k], s);
    }
  }

  /** If the run is not free, some earlier extent overlaps it. */
  lemma Clash(dir: seq<DirEntry>, i: nat, used: seq<bool>, total: nat)
    requires i < |dir| && Live(dir[i]) && DATA_START <= dir[i].start && dir[i].start + dir[i].alloc <= |used|
    requires forall s :: 0 <= s < |used| ==> (used[s] <==> Occupied(dir[..i], s))
    requires !FreeRun(used, dir[i].start, dir[i].alloc)
    ensures !Sound(dir, total)
  {
    var s :| dir[i].start <= s < dir[i].start + dir[i].alloc && used[s];
    assert Occupied(dir[..i], s);
    var k :| 0 <= k < i && InExtent(dir[..i][k], s);
    assert InExtent(dir[k], s) && InExtent(dir[i], s);
    assert !Apart(dir[k], dir[i]);
  }

  lemma SameBitmap(dir: seq<DirEntry>, a: seq<bool>, b: seq<bool>)
    requires BitmapExact(dir, a) && BitmapExact(dir, b) && |a| == |b|
    ensures a == b
  {
  }

  lemma EmptyDirectory(disk: seq<Sector>)
    requires DATA_START < |disk| <= MAX_TRACKED
    requires forall k :: DIR_START <= k < DATA_START ==> disk[k] == ZeroSector()
    ensures DiskOk(disk) && Files(disk) == map[]
    ensures forall i :: 0 <= i < MAX_FILES ==> !Live(Dir(disk)[i])
  {
    forall i | 0 <= i < MAX_FILES
      ensures !Live(ReadEntry(disk, i))
    {
      assert DIR_START <= EntrySector(i) < DATA_START;
    }
    hide ReadEntry;
    assert Files(disk).Keys == {};
  }

  lemma NamesDiffer(disk: seq<Sector>, index: nat, name: Name)
    requires DiskOk(disk) && name !in Files(disk)
    ensures forall j :: 0 <= j < MAX_FILES && Live(Dir(disk)[j]) ==> NameOf(Dir(disk)[j]) != name
  {
    forall j | 0 <= j < MAX_FILES && Live(Dir(disk)[j])
      ensures NameOf(Dir(disk)[j]) != name
    {
      FileAt(disk, j);
    }
  }

  /** simplefs_normalize_path */
  method NormalizePath(path: seq<Byte>) returns (ok: bool, name: Name)
    requires 0 !in path
    ensures ok <==> GoodPath(path)
    ensures ok ==> name == path[1..] && ValidName(name)
  {
    name := [];
    if path == [] || path[0] != SLASH {
      return false, [];
    }
    var rest := path[1..];
    if rest == [] {
      return false, [];
    }
    var len := 0;
    while len < |rest|
      invariant len <= |rest| && name == rest[..len] && SLASH !in name && len < NAME_MAX
    {
      if rest[len] == SLASH {
        assert rest[len] in rest;
        return false, [];
      }
      if len >= NAME_MAX - 1 {
        return false, [];
      }
      name := name + [rest[len]];
      len := len + 1;
    }
    assert rest[..len] == rest;
    if (len == 1 && name[0] == DOT) || (len == 2 && name[0] == DOT && name[1] == DOT) {
      return false, [];
    }
    return true, name;
  }

  ghost predicate GoodPath(path: seq<Byte>) {
    path != [] && path[0] == SLASH && ValidName(path[1..])
  }

  /** What a read of `count` bytes at `offset` returns. */
  ghost function Slice(content: seq<Byte>, offset: nat, count: nat): seq<Byte> {
    if offset >= |content| then []
    else if count < |content| - offset then content[offset..offset + count]
    else content[offset..]
  }

  /** A read gets the bytes from its offset on, as many as it asks for or as there are. */
  lemma SliceMeans(content: seq<Byte>, offset: nat, count: nat)
    ensures |Slice(content, offset, count)| == if offset >= |content| then 0 else if offset + count <= |content| then count else |content| - offset
    ensures forall i :: 0 <= i < |Slice(content, offset, count)| ==> Slice(content, offset, count)[i] == content[offset + i]
  {
  }

  lemma SameSector(a: nat, k: nat)
    requires OffsetIn(a) + k < 512
    ensures SectorOf(a + k) == SectorOf(a) && OffsetIn(a + k) == OffsetIn(a) + k
  {
  }

  /** A chunk that does not cross a sector boundary, read from its sector. */
  lemma ChunkContent(disk: seq<Sector>, e: DirEntry, a: nat, chunk: nat)
    requires Live(e) && Placed(e, |disk|) && Fits(e) && a + chunk <= e.size && chunk <= 512 - OffsetIn(a) && chunk > 0
    ensures e.start + SectorOf(a) < |disk|
    ensures disk[e.start + SectorOf(a)][OffsetIn(a)..OffsetIn(a) + chunk] == Content(disk, e)[a..a + chunk]
  {
    var left, right := disk[e.start + SectorOf(a)][OffsetIn(a)..OffsetIn(a) + chunk], Content(disk, e)[a..a + chunk];
    forall k | 0 <= k < chunk
      ensures left[k] == right[k]
    {
      SameSector(a, k);
      assert right[k] == ByteAt(disk, e.start, a + k);
    }
  }

  /** simplefs_sectors_for_bytes, with the 32-bit wrap of its addition. */
  function SectorsForBytes(bytes: nat): nat {
    if bytes == 0 then 0 else ((bytes + 511) % 0x1_0000_0000) / 512
  }

  /** The sector count covers the bytes exactly when the addition does not wrap. */
  lemma SectorsCover(bytes: nat)
    requires bytes < 0x1_0000_0000
    ensures bytes <= SectorsForBytes(bytes) * 512 <==> bytes <= 0x1_0000_0000 - 512
  {
  }

  /** The largest size wraps to no sectors at all. */
  lemma SectorsWrap()
    ensures SectorsForBytes(0xFFFF_FFFF) == 0
  {
  }

  /** The file lies in its new extent, which holds zeros from there on; a new extent was free. */
  ghost predicate Grown(disk0: seq<Sector>, disk: seq<Sector>, used0: seq<bool>, used: seq<bool>,
                        entry: DirEntry, e: DirEntry, required: nat)
    requires Live(entry) && Placed(entry, |disk0|) && Fits(entry)
  {
    && |disk| == |disk0| && required <= e.alloc && Placed(e, |disk|) && Fits(e)
    && (if e == entry then used == used0
        else
          && e == entry.(start := e.start, alloc := required) && required > entry.alloc && DATA_START <= e.start
          && FreeRun(used0, e.start, e.alloc) && used == Marked(used0, e.start, e.alloc, true))
    && (forall p: nat :: p < e.alloc * 512 ==>
          ByteAt(disk, e.start, p) == if p < entry.size then ByteAt(disk0, entry.start, p) else 0)
  }

  lemma NotGrown(disk: seq<Sector>, used: seq<bool>, entry: DirEntry, required: nat)
    requires Live(entry) && Placed(entry, |disk|) && Fits(entry) && ZeroTail(disk, entry) && required <= entry.alloc
    ensures Grown(disk, disk, used, used, entry, entry, required)
  {
    hide ByteAt;
  }

  /** A free run meets no live extent and no metadata. */
  lemma RunIsFree(disk: seq<Sector>, used: seq<bool>, start: nat, count: nat)
    requires |disk| > DATA_START && |used| == |disk| && BitmapExact(Dir(disk), used) && FreeRun(used, start, count)
    ensures forall j, s :: 0 <= j < MAX_FILES && start <= s < start + count ==> !InExtent(Dir(disk)[j], s)
    ensures count > 0 ==> DATA_START <= start
  {
    hide ReadEntry;
    forall j, s | 0 <= j < MAX_FILES && start <= s < start + count
      ensures !InExtent(Dir(disk)[j], s)
    {
      assert !Occupied(Dir(disk), s);
    }
    if count > 0 {
      assert !Occupied(Dir(disk), start);
    }
  }

  lemma RunsApart(entry: DirEntry, start: nat, count: nat)
    requires Live(entry) && entry.alloc > 0 && count > 0
    requires forall s :: start <= s < start + count ==> !InExtent(entry, s)
    ensures entry.start + entry.alloc <= start || start + count <= entry.start
  {
    var s := if entry.start < start then start else entry.start;
    assert start <= s < start + count ==> !InExtent(entry, s);
  }

  /** Only the superblock and a free run were written: no file changed. */
  lemma OnlyRunChanged(disk0: seq<Sector>, disk: seq<Sector>, start: nat, count: nat)
    requires DiskOk(disk0) && |disk| == |disk0| && DATA_START <= start
    requires forall j, s :: 0 <= j < MAX_FILES && start <= s < start + count ==> !InExtent(Dir(disk0)[j], s)
    requires forall s :: 0 < s < |disk| && !(start <= s < start + count) ==> disk[s] == disk0[s]
    ensures Dir(disk) == Dir(disk0) && DiskOk(disk) && Files(disk) == Files(disk0)
  {
    hide ReadEntry, Files;
    DirUntouched(disk0, disk);
    assert ExtentsSame(disk0, disk, -1);
    FreeSectorsChange(disk0, disk);
  }

  lemma FitsInSectors(size: nat, alloc: nat)
    requires size <= alloc * 512 && alloc <= MAX_TRACKED
    ensures SectorsForBytes(size) <= alloc && size <= SectorsForBytes(size) * 512
  {
  }

  lemma EntryFacts(disk: seq<Sector>, index: nat)
    requires DiskOk(disk) && index < MAX_FILES
    ensures Placed(Dir(disk)[index], |disk|) && Fits(Dir(disk)[index]) && ZeroTail(disk, Dir(disk)[index])
  {
  }

  /** The file and its new extent: both in range, and apart. */
  lemma CopyRange(disk: seq<Sector>, index: nat, start: nat, required: nat)
    requires DiskOk(disk) && index < MAX_FILES && Live(Dir(disk)[index]) && required > 0
    requires SectorsForBytes(Dir(disk)[index].size) <= required
    requires forall j, s :: 0 <= j < MAX_FILES && start <= s < start + required ==> !InExtent(Dir(disk)[j], s)
    ensures var entry := Dir(disk)[index];
            && SectorsForBytes(entry.size) <= entry.alloc && entry.size <= SectorsForBytes(entry.size) * 512
            && (entry.size > 0 && entry.alloc > 0 ==>
                  entry.start + entry.alloc <= |disk| &&
                  (entry.start + entry.alloc <= start || start + required <= entry.start))
  {
    hide ReadEntry, NamesUnique, ZeroTail, SectorsForBytes;
    var entry := Dir(disk)[index];
    if entry.alloc > 0 {
      RunsApart(entry, start, required);
    }
    FitsInSectors(entry.size, entry.alloc);
  }

  /** Allocation, zeroing and copying together move the file and change no contents. */
  lemma Moved(disk0: seq<Sector>, disk2: seq<Sector>, disk: seq<Sector>, used0: seq<bool>, used: seq<bool>,
              index: nat, start: nat, required: nat)
    requires DiskOk(disk0) && |disk2| == |disk0| == |disk| && index < MAX_FILES && Live(Dir(disk0)[index])
    requires required > Dir(disk0)[index].alloc && DATA_START <= start && start + required <= |disk0|
    requires required < 0x1_0000_0000
    requires forall j, s :: 0 <= j < MAX_FILES && start <= s < start + required ==> !InExtent(Dir(disk0)[j], s)
    requires forall s :: 0 < s < |disk| && !(start <= s < start + required) ==> disk2[s] == disk0[s]
    requires forall s :: start <= s < start + required ==> disk2[s] == ZeroSector()
    requires SectorsForBytes(Dir(disk0)[index].size) <= required
    requires var entry := Dir(disk0)[index];
             var n := if entry.size > 0 && entry.alloc > 0 then SectorsForBytes(entry.size) else 0;
             && (n > 0 ==> entry.start + n <= |disk0| && disk[start..start + n] == disk2[entry.start..entry.start + n])
             && forall s :: 0 <= s < |disk| && !(start <= s < start + n) ==> disk[s] == disk2[s]
    requires FreeRun(used0, start, required) && used == Marked(used0, start, required, true)
    ensures Dir(disk) == Dir(disk0) && DiskOk(disk) && Files(disk) == Files(disk0)
    ensures var entry := Dir(disk0)[index];
            Grown(disk0, disk, used0, used, entry, entry.(start := start, alloc := required), required)
  {
    hide ReadEntry, NamesUnique, Files, SectorsForBytes, ByteAt, Apart, Marked;
    var entry := Dir(disk0)[index];
    CopyRange(disk0, index, start, required);
    OnlyRunChanged(disk0, disk, start, required);
    Relocated(disk0, disk2, disk, entry, entry.(start := start, alloc := required));
  }

  lemma Relocated(disk0: seq<Sector>, disk2: seq<Sector>, disk: seq<Sector>, entry: DirEntry, e: DirEntry)
    requires |disk2| == |disk0| == |disk| && Live(entry) && Placed(entry, |disk0|) && Fits(entry)
    requires ZeroTail(disk0, entry)
    requires e.start + e.alloc <= |disk0| && SectorsForBytes(entry.size) <= e.alloc
    requires SectorsForBytes(entry.size) <= entry.alloc && entry.size <= SectorsForBytes(entry.size) * 512
    requires forall s :: 0 <= s < |disk0| && InExtent(entry, s) ==> disk2[s] == disk0[s]
    requires forall s :: e.start <= s < e.start + e.alloc ==> disk2[s] == ZeroSector()
    requires var n := if entry.size > 0 && entry.alloc > 0 then SectorsForBytes(entry.size) else 0;
             && (n > 0 ==> entry.start + n <= |disk0| && disk[e.start..e.start + n] == disk2[entry.start..entry.start + n])
             && forall s :: 0 <= s < |disk| && !(e.start <= s < e.start + n) ==> disk[s] == disk2[s]
    ensures forall p: nat :: p < e.alloc * 512 ==>
              ByteAt(disk, e.start, p) == if p < entry.size then ByteAt(disk0, entry.start, p) else 0
  {
    var n := if entry.size > 0 && entry.alloc > 0 then SectorsForBytes(entry.size) else 0;
    forall p: nat | p < e.alloc * 512
      ensures ByteAt(disk, e.start, p) == if p < entry.size then ByteAt(disk0, entry.start, p) else 0
    {
      var k := SectorOf(p);
      if k < n {
        assert InExtent(entry, entry.start + k);
        assert disk[e.start + k] == disk[e.start..e.start + n][k] == disk2[entry.start + k];
        assert ByteAt(disk, e.start, p) == ByteAt(disk0, entry.start, p);
      } else {
        assert disk[e.start + k] == ZeroSector();
      }
    }
  }

  /** Inside the extent, `data` is stored at `offset` and the rest is as before. */
  ghost predicate Spliced(disk0: seq<Sector>, disk: seq<Sector>, start: nat, alloc: nat, offset: nat, data: seq<Byte>)
    requires |disk| == |disk0| && start + alloc <= |disk|
  {
    forall p: nat :: p < alloc * 512 ==>
      ByteAt(disk, start, p) == if offset <= p < offset + |data| then data[p - offset] else ByteAt(disk0, start, p)
  }

  lemma ChunkSpliced(disk0: seq<Sector>, disk1: seq<Sector>, disk2: seq<Sector>, start: nat, alloc: nat,
                     offset: nat, data: seq<Byte>, done: nat, chunk: nat, stale: Sector)
    requires |disk0| == |disk1| == |disk2| && start + alloc <= |disk0|
    requires done + chunk <= |data| && 0 < chunk <= 512 - OffsetIn(offset + done)
    requires offset + |data| <= alloc * 512
    requires chunk != 512 ==> stale == disk1[start + SectorOf(offset + done)]
    requires disk2 == disk1[start + SectorOf(offset + done) :=
                            Splice(stale, OffsetIn(offset + done), data[done..done + chunk])]
    requires Spliced(disk0, disk1, start, alloc, offset, data[..done])
    ensures Spliced(disk0, disk2, start, alloc, offset, data[..done + chunk])
  {
    var a := offset + done;
    forall p: nat | p < alloc * 512
      ensures ByteAt(disk2, start, p) ==
              if offset <= p < offset + done + chunk then data[p - offset] else ByteAt(disk0, start, p)
    {
      SpliceByte(disk1, disk2, start, p, a, data[done..done + chunk], stale);
    }
  }

  /** One byte of a spliced sector. */
  lemma SpliceByte(disk1: seq<Sector>, disk2: seq<Sector>, start: nat, p: nat, a: nat, bytes: seq<Byte>, stale: Sector)
    requires |disk1| == |disk2| && start + SectorOf(p) < |disk1| && start + SectorOf(a) < |disk1|
    requires 0 < |bytes| <= 512 - OffsetIn(a)
    requires |bytes| != 512 ==> stale == disk1[start + SectorOf(a)]
    requires disk2 == disk1[start + SectorOf(a) := Splice(stale, OffsetIn(a), bytes)]
    ensures ByteAt(disk2, start, p) == if a <= p < a + |bytes| then bytes[p - a] else ByteAt(disk1, start, p)
  {
    if SectorOf(p) == SectorOf(a) {
      assert p - a == OffsetIn(p) - OffsetIn(a);
    }
  }

  /** A file after a write: the data at the offset, zeros in any gap, the rest as before. */
  ghost function Overwrite(content: seq<Byte>, offset: nat, data: seq<Byte>): (r: seq<Byte>)
    ensures |r| == if offset + |data| < |content| then |content| else offset + |data|
    ensures forall p :: 0 <= p < |r| ==>
              r[p] == if offset <= p < offset + |data| then data[p - offset] else if p < |content| then content[p] else 0
  {
    seq(if offset + |data| < |content| then |content| else offset + |data|,
        p requires 0 <= p =>
          if offset <= p < offset + |data| then data[p - offset] else if p < |content| then content[p] else 0)
  }

  /** The new extent of the file is apart from the other files. */
  lemma GrownApart(disk0: seq<Sector>, disk1: seq<Sector>, used0: seq<bool>, used1: seq<bool>, index: nat,
                   e: DirEntry, required: nat, j: nat)
    requires DiskOk(disk0) && |used0| == |disk0| && BitmapExact(Dir(disk0), used0)
    requires index < MAX_FILES && Live(Dir(disk0)[index]) && j < MAX_FILES && j != index
    requires Placed(Dir(disk0)[index], |disk0|) && Fits(Dir(disk0)[index])
    requires Grown(disk0, disk1, used0, used1, Dir(disk0)[index], e, required)
    ensures Apart(e, Dir(disk0)[j]) && Apart(Dir(disk0)[j], e)
  {
    hide ReadEntry, ByteAt, NamesUnique, ZeroTail;
    var dir := Dir(disk0);
    if e == dir[index] {
      assert j < index ==> Apart(dir[j], dir[index]);
      assert index < j ==> Apart(dir[index], dir[j]);
    } else {
      RunIsFree(disk0, used0, e.start, e.alloc);
    }
  }

  /** The contents of the written extent. */
  lemma WrittenContent(disk0: seq<Sector>, disk1: seq<Sector>, disk: seq<Sector>, entry: DirEntry, e: DirEntry, e2: DirEntry,
                       offset: nat, data: seq<Byte>)
    requires |disk0| == |disk1| == |disk| && Live(entry) && Placed(entry, |disk0|) && Fits(entry)
    requires Live(e) && Placed(e, |disk|) && e2 == e.(size := e2.size) && e.start + e.alloc <= |disk|
    requires e2.size == (if offset + |data| < entry.size then entry.size else offset + |data|) && e2.size <= e.alloc * 512
    requires forall p: nat :: p < e.alloc * 512 ==>
               ByteAt(disk1, e.start, p) == if p < entry.size then ByteAt(disk0, entry.start, p) else 0
    requires Spliced(disk1, disk, e.start, e.alloc, offset, data)
    ensures Fits(e2) && ZeroTail(disk, e2) && Content(disk, e2) == Overwrite(Content(disk0, entry), offset, data)
  {
    hide ByteAt;
    assert Content(disk, e2) == Overwrite(Content(disk0, entry), offset, data);
  }

  /** Data and entry are on disk: exactly this file changed. */
  lemma Written(disk0: seq<Sector>, disk1: seq<Sector>, disk2: seq<Sector>, disk3: seq<Sector>,
                used0: seq<bool>, used1: seq<bool>, index: nat, e: DirEntry, e2: DirEntry,
                offset: nat, data: seq<Byte>, required: nat)
    requires DiskOk(disk0) && DiskOk(disk1) && |disk0| == |disk1| == |disk2| == |disk3| == |used0|
    requires BitmapExact(Dir(disk0), used0) && Dir(disk1) == Dir(disk0) && index < MAX_FILES && Live(Dir(disk0)[index])
    requires Placed(Dir(disk0)[index], |disk0|) && Fits(Dir(disk0)[index])
    requires Grown(disk0, disk1, used0, used1, Dir(disk0)[index], e, required)
    requires e2 == e.(size := e2.size) && e2.size <= e.alloc * 512
    requires e2.size == if offset + |data| < Dir(disk0)[index].size then Dir(disk0)[index].size else offset + |data|
    requires forall s :: 0 <= s < |disk2| && !(e.start <= s < e.start + e.alloc) ==> disk2[s] == disk1[s]
    requires e.start + e.alloc <= |disk1| && Spliced(disk1, disk2, e.start, e.alloc, offset, data)
    requires Dir(disk3) == Dir(disk2)[index := e2]
    requires forall s :: 0 <= s < |disk3| && !(DIR_START <= s < DATA_START) ==> disk3[s] == disk2[s]
    ensures DiskOk(disk3) && disk3[0] == disk1[0] && Dir(disk3) == Dir(disk0)[index := e2]
    ensures Files(disk3) == Files(disk1)[NameOf(Dir(disk0)[index]) :=
                              Overwrite(Content(disk0, Dir(disk0)[index]), offset, data)]
  {
    hide ReadEntry, ByteAt, Files, NameOf, Apart, NamesUnique, Overwrite, Content, ZeroTail, Spliced, ValidName;
    var dir, entry := Dir(disk0), Dir(disk0)[index];
    assert e.alloc > 0 ==> DATA_START <= e.start;
    DirUntouched(disk1, disk2);
    SplicedLater(disk1, disk2, disk3, e, offset, data);
    WrittenContent(disk0, disk1, disk3, entry, e, e2, offset, data);
    assert NameOf(e2) == NameOf(entry) by { SameName(entry, e2); }
    forall j | 0 <= j < MAX_FILES && j != index
      ensures Apart(e2, dir[j]) && Apart(dir[j], e2)
    {
      GrownApart(disk0, disk1, used0, used1, index, e, required, j);
      ApartResized(e, e2, dir[j]);
    }
    OtherExtents(disk1, disk3, index, e2);
    UniqueName(disk1, index);
    EntryReplaced(disk1, disk3, index, e2);
  }

  lemma SameName(a: DirEntry, b: DirEntry)
    requires a.name == b.name
    ensures NameOf(a) == NameOf(b)
  {
  }

  lemma ApartResized(e: DirEntry, e2: DirEntry, f: DirEntry)
    requires e2 == e.(size := e2.size) && Apart(e, f) && Apart(f, e)
    ensures Apart(e2, f) && Apart(f, e2)
  {
    forall s
      ensures InExtent(e2, s) <==> InExtent(e, s)
    {
    }
  }

  lemma SplicedLater(disk1: seq<Sector>, disk2: seq<Sector>, disk3: seq<Sector>, e: DirEntry, offset: nat, data: seq<Byte>)
    requires |disk1| == |disk2| == |disk3| && e.start + e.alloc <= |disk1|
    requires e.alloc > 0 ==> DATA_START <= e.start
    requires Spliced(disk1, disk2, e.start, e.alloc, offset, data)
    requires forall s :: 0 <= s < |disk3| && !(DIR_START <= s < DATA_START) ==> disk3[s] == disk2[s]
    ensures Spliced(disk1, disk3, e.start, e.alloc, offset, data)
  {
    forall p: nat | p < e.alloc * 512
      ensures ByteAt(disk3, e.start, p) == ByteAt(disk2, e.start, p)
    {
      assert e.start + SectorOf(p) >= DATA_START;
    }
  }

  lemma OtherExtents(disk1: seq<Sector>, disk3: seq<Sector>, index: nat, e: DirEntry)
    requires DiskOk(disk1) && |disk3| == |disk1| && index < MAX_FILES && Live(e)
    requires forall j :: 0 <= j < MAX_FILES && j != index ==> Apart(e, Dir(disk1)[j])
    requires forall s :: DATA_START <= s < |disk1| && !(e.start <= s < e.start + e.alloc) ==> disk3[s] == disk1[s]
    ensures ExtentsSame(disk1, disk3, index)
  {
    hide ReadEntry, NamesUnique, ZeroTail;
    forall j, s | 0 <= j < MAX_FILES && j != index && 0 <= s < |disk1| && InExtent(Dir(disk1)[j], s)
      ensures disk3[s] == disk1[s]
    {
      assert Placed(Dir(disk1)[j], |disk1|);
      assert Apart(e, Dir(disk1)[j]);
      assert !InExtent(e, s);
    }
  }

  lemma UniqueName(disk: seq<Sector>, index: nat)
    requires DiskOk(disk) && index < MAX_FILES && Live(Dir(disk)[index])
    ensures ValidName(NameOf(Dir(disk)[index]))
    ensures forall j :: 0 <= j < MAX_FILES && j != index && Live(Dir(disk)[j]) ==>
              NameOf(Dir(disk)[j]) != NameOf(Dir(disk)[index])
  {
    hide ReadEntry, NameOf, ValidName, Sound, ZeroTail;
  }

  /** After the old extent is freed the bitmap is exact again. */
  lemma FreedOld(disk0: seq<Sector>, disk1: seq<Sector>, used0: seq<bool>, used1: seq<bool>, used: seq<bool>,
                 index: nat, e: DirEntry, e2: DirEntry, required: nat)
    requires DiskOk(disk0) && |used0| == |disk0| == |used1| == |used| && BitmapExact(Dir(disk0), used0)
    requires index < MAX_FILES && Live(Dir(disk0)[index])
    requires Placed(Dir(disk0)[index], |disk0|) && Fits(Dir(disk0)[index])
    requires Grown(disk0, disk1, used0, used1, Dir(disk0)[index], e, required) && e2 == e.(size := e2.size)
    requires var entry := Dir(disk0)[index];
             used == if entry.alloc > 0 && e.start != entry.start then Marked(used1, entry.start, entry.alloc, false)
                     else used1
    ensures BitmapExact(Dir(disk0)[index := e2], used)
  {
    hide ReadEntry, ByteAt, NamesUnique, ZeroTail;
    var dir, entry := Dir(disk0), Dir(disk0)[index];
    assert entry.alloc > 0 ==> InExtent(dir[index], entry.start) && Occupied(dir, entry.start);
    forall s | 0 <= s < |used0|
      ensures InExtent(entry, s) ==> used0[s]
      ensures used[s] <==> (used0[s] && !InExtent(entry, s)) || InExtent(e2, s)
    {
      assert InExtent(dir[index], s) ==> Occupied(dir, s);
    }
    BitmapReplaced(dir, used0, used, index, e2);
  }

  /** The size is one of the last 511 below 2^32, for which the sector count wraps to zero. */
  predicate Wraps(end: nat) { 0x1_0000_0000 - 512 < end < 0x1_0000_0000 }

  /** The bytes lie in the extent, and the extent on the device. */
  predicate InExtentBytes(start: nat, alloc: nat, offset: nat, count: nat, total: nat) {
    start + alloc <= total && offset + count <= alloc * 512
  }

  /** When the sector count wraps, no sector is asked for and the data lie past the end of the device. */
  lemma WrapsIff(disk: seq<Sector>, index: nat, offset: nat, count: nat)
    requires DiskOk(disk) && index < MAX_FILES && Live(Dir(disk)[index]) && 0 < offset + count < 0x1_0000_0000
    requires Wraps(offset + count) ==> offset >= MAX_TRACKED * 512
    ensures var size := Dir(disk)[index].size;
      var newSize := if offset + count < size then size else offset + count;
      && (newSize > SectorsForBytes(newSize) * 512 <==> Wraps(offset + count))
      && (Wraps(offset + count) ==> SectorsForBytes(newSize) == 0 && Dir(disk)[index].start + SectorOf(offset) >= |disk|)
  {
    EntryFacts(disk, index);
  }

  /** The file would have to grow and no free run is long enough. */
  ghost predicate NoRoom(disk: seq<Sector>, used: seq<bool>, name: Name, end: nat)
    requires |disk| > DATA_START
  {
    exists i :: 0 <= i < MAX_FILES && Live(Dir(disk)[i]) && NameOf(Dir(disk)[i]) == name && NoRoomAt(disk, used, i, end)
  }

  ghost predicate NoRoomAt(disk: seq<Sector>, used: seq<bool>, i: nat, end: nat)
    requires |disk| > DATA_START && i < MAX_FILES
  {
    var entry := Dir(disk)[i];
    var sectors := (end + 511) / 512;
    sectors > entry.alloc && forall s :: DATA_START <= s ==> !FreeRun(used, s, sectors)
  }

  /** There is no room exactly if the file's extent ends before the data and nowhere in the data area
      are as many sectors free, one after the other, as the file would have. */
  lemma NoRoomMeans(disk: seq<Sector>, used: seq<bool>, name: Name, end: nat)
    requires |disk| > 5
    ensures var sectors := (end + 511) / 512;
      NoRoom(disk, used, name, end) <==>
        && (exists i :: 0 <= i < 32 && Live(Dir(disk)[i]) && NameOf(Dir(disk)[i]) == name && Dir(disk)[i].alloc * 512 < end)
        && (forall s :: 5 <= s ==> !FreeRun(used, s, sectors))
  {
    hide FreeRun, NameOf, ReadEntry;
    forall i | 0 <= i < 32
      ensures NoRoomAt(disk, used, i, end) <==>
        var sectors := (end + 511) / 512; Dir(disk)[i].alloc * 512 < end && forall s :: 5 <= s ==> !FreeRun(used, s, sectors)
    {
    }
  }

  /** The sectors that the write asks for decide exactly whether there is room. */
  lemma RoomNeeded(disk: seq<Sector>, used: seq<bool>, index: nat, name: Name, end: nat, newSize: nat)
    requires DiskOk(disk) && index < MAX_FILES && Live(Dir(disk)[index]) && NameOf(Dir(disk)[index]) == name
    requires newSize == if end < Dir(disk)[index].size then Dir(disk)[index].size else end
    requires 0 < end <= 0x1_0000_0000 - 512
    ensures newSize <= 0x1_0000_0000 - 512 && newSize <= SectorsForBytes(newSize) * 512
    ensures SectorsForBytes(newSize) < 0x1_0000_0000 && SectorsForBytes(Dir(disk)[index].size) <= SectorsForBytes(newSize)
    ensures NoRoom(disk, used, name, end) <==>
      SectorsForBytes(newSize) > Dir(disk)[index].alloc &&
      forall s :: DATA_START <= s ==> !FreeRun(used, s, SectorsForBytes(newSize))
  {
    hide ReadEntry, NameOf, ZeroTail, ValidName;
    var entry := Dir(disk)[index];
    assert Fits(entry) && Placed(entry, |disk|);
    SmallFile(entry, |disk|);
    SectorsCover(newSize);
    SectorsMonotone(entry.size, newSize);
    if end < entry.size {
      FitsInSectors(entry.size, entry.alloc);
      SectorsMonotone(end, entry.size);
    }
    SectorsPlain(end);
    hide SectorsForBytes, FreeRun;
    assert NoRoom(disk, used, name, end) <==> NoRoomAt(disk, used, index, end) by {
      forall i | 0 <= i < MAX_FILES && Live(Dir(disk)[i]) && NameOf(Dir(disk)[i]) == name
        ensures i == index
      {
      }
    }
  }

  lemma SmallFile(e: DirEntry, total: nat)
    requires Live(e) && Placed(e, total) && Fits(e) && total <= MAX_TRACKED
    ensures e.size <= MAX_TRACKED * 512 && e.alloc <= MAX_TRACKED
  {
  }

  lemma SectorsPlain(bytes: nat)
    requires bytes <= 0x1_0000_0000 - 512
    ensures SectorsForBytes(bytes) == (bytes + 511) / 512
  {
  }

  lemma SectorsMonotone(a: nat, b: nat)
    requires a <= b <= 0x1_0000_0000 - 512
    ensures SectorsForBytes(a) <= SectorsForBytes(b)
  {
  }

  lemma GrownCovers(disk0: seq<Sector>, disk: seq<Sector>, used0: seq<bool>, used: seq<bool>, entry: DirEntry,
                    e: DirEntry, newSize: nat, offset: nat)
    requires Live(entry) && Placed(entry, |disk0|) && Fits(entry)
    requires Grown(disk0, disk, used0, used, entry, e, SectorsForBytes(newSize))
    requires offset < newSize <= SectorsForBytes(newSize) * 512
    ensures newSize <= e.alloc * 512 && e.start + SectorOf(offset) < |disk|
  {
  }
}
