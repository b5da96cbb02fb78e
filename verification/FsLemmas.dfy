/** How updates of the disk and of the bitmap show in the files. */
module FsLemmas {
  import opened FsCodec
  import opened FsState

  /** Every sector of every live extent is the same. */
  ghost predicate ExtentsSame(disk: seq<Sector>, disk2: seq<Sector>, skip: int)
    requires |disk| > DATA_START && |disk2| == |disk|
  {
    forall j, s :: 0 <= j < MAX_FILES && j != skip && 0 <= s < |disk| && InExtent(Dir(disk)[j], s) ==> disk2[s] == disk[s]
  }

  lemma SameContent(disk: seq<Sector>, disk2: seq<Sector>, e: DirEntry)
    requires |disk2| == |disk| && Live(e) && Placed(e, |disk|) && Fits(e) && ZeroTail(disk, e)
    requires forall s :: 0 <= s < |disk| && InExtent(e, s) ==> disk2[s] == disk[s]
    ensures ZeroTail(disk2, e) && Content(disk2, e) == Content(disk, e)
  {
    forall p: nat | p < e.alloc * 512
      ensures ByteAt(disk2, e.start, p) == ByteAt(disk, e.start, p)
    {
      assert InExtent(e, e.start + SectorOf(p));
    }
  }

  /** Sectors outside the live extents and the directory may change freely. */
  lemma FreeSectorsChange(disk: seq<Sector>, disk2: seq<Sector>)
    requires DiskOk(disk) && |disk2| == |disk| && Dir(disk2) == Dir(disk) && ExtentsSame(disk, disk2, -1)
    ensures DiskOk(disk2) && Files(disk2) == Files(disk)
  {
    hide ReadEntry, NameOf, ValidName;
    var dir := Dir(disk);
    forall i | 0 <= i < MAX_FILES
      ensures ZeroTail(disk2, dir[i])
      ensures Live(dir[i]) ==> Content(disk2, dir[i]) == Content(disk, dir[i])
    {
      if Live(dir[i]) {
        SameContent(disk, disk2, dir[i]);
      }
    }
    assert Files(disk2) == Files(disk);
  }

  /** Entry i is rewritten, for a file of the same name or a new one, together with the
      contents of its extent: exactly that file changes. */
  lemma EntryReplaced(disk: seq<Sector>, disk2: seq<Sector>, i: nat, e: DirEntry)
    requires DiskOk(disk) && |disk2| == |disk| && i < MAX_FILES && Dir(disk2) == Dir(disk)[i := e]
    requires Live(e) && ValidName(NameOf(e)) && Placed(e, |disk|) && Fits(e) && ZeroTail(disk2, e)
    requires forall j :: 0 <= j < MAX_FILES && j != i && Live(Dir(disk)[j]) ==> NameOf(Dir(disk)[j]) != NameOf(e)
    requires Live(Dir(disk)[i]) ==> NameOf(Dir(disk)[i]) == NameOf(e)
    requires forall j :: 0 <= j < MAX_FILES && j != i ==> Apart(e, Dir(disk)[j]) && Apart(Dir(disk)[j], e)
    requires ExtentsSame(disk, disk2, i)
    ensures DiskOk(disk2) && Files(disk2) == Files(disk)[NameOf(e) := Content(disk2, e)]
  {
    hide ReadEntry, NameOf, ValidName;
    var dir, dir2 := Dir(disk), Dir(disk2);
    forall j | 0 <= j < MAX_FILES
      ensures ZeroTail(disk2, dir2[j])
      ensures j != i && Live(dir[j]) ==> Content(disk2, dir[j]) == Content(disk, dir[j])
    {
      if j != i && Live(dir[j]) {
        SameContent(disk, disk2, dir[j]);
      }
    }
    SoundReplaced(dir, i, e, |disk|);
    NamesReplaced(dir, i, e);
    hide ZeroTail, Apart, ReadEntry, Content, NameOf, Live, ValidName, InExtent, Sound, NamesUnique;
    assert DiskOk(disk2);
    FilesReplaced(disk, disk2, i, e);
  }

  lemma SoundReplaced(dir: seq<DirEntry>, i: nat, e: DirEntry, total: nat)
    requires Sound(dir, total) && i < |dir| && Placed(e, total)
    requires forall j :: 0 <= j < |dir| && j != i ==> Apart(e, dir[j]) && Apart(dir[j], e)
    ensures Sound(dir[i := e], total)
  {
    hide Apart, Placed;
  }

  lemma NamesReplaced(dir: seq<DirEntry>, i: nat, e: DirEntry)
    requires NamesUnique(dir) && i < |dir| && Live(e) && ValidName(NameOf(e))
    requires forall j :: 0 <= j < |dir| && j != i && Live(dir[j]) ==> NameOf(dir[j]) != NameOf(e)
    ensures NamesUnique(dir[i := e])
  {
    hide NameOf, ValidName, Live;
  }

  lemma FilesReplaced(disk: seq<Sector>, disk2: seq<Sector>, i: nat, e: DirEntry)
    requires DiskOk(disk) && DiskOk(disk2) && |disk2| == |disk| && i < MAX_FILES && Dir(disk2) == Dir(disk)[i := e]
    requires Live(e) && Placed(e, |disk|) && Fits(e)
    requires Live(Dir(disk)[i]) ==> NameOf(Dir(disk)[i]) == NameOf(e)
    requires forall j :: 0 <= j < MAX_FILES && j != i && Live(Dir(disk)[j]) ==>
               NameOf(Dir(disk)[j]) != NameOf(e) && Content(disk2, Dir(disk)[j]) == Content(disk, Dir(disk)[j])
    ensures Files(disk2) == Files(disk)[NameOf(e) := Content(disk2, e)]
  {
    hide ZeroTail, Apart, ReadEntry, Content, NameOf, Live, ValidName, InExtent, NamesUnique;
    var dir, dir2 := Dir(disk), Dir(disk2);
    var f, f2 := Files(disk), Files(disk2);
    forall n | n in f2
      ensures n in f[NameOf(e) := Content(disk2, e)] && f2[n] == f[NameOf(e) := Content(disk2, e)][n]
    {
      var j :| 0 <= j < MAX_FILES && Live(dir2[j]) && NameOf(dir2[j]) == n && f2[n] == Content(disk2, dir2[j]);
    }
    forall n | n in f
      ensures n in f2
    {
      var j :| 0 <= j < MAX_FILES && Live(dir[j]) && NameOf(dir[j]) == n;
      assert dir2[j] == if j == i then e else dir[j];
    }
    assert dir2[i] == e;
    assert NameOf(e) in f2;
  }

  /** The extent of entry i is given up and the extent of its replacement taken. */
  lemma BitmapReplaced(dir: seq<DirEntry>, used: seq<bool>, used2: seq<bool>, i: nat, e: DirEntry)
    requires BitmapExact(dir, used) && Sound(dir, |used|) && i < |dir| && |used2| == |used|
    requires Placed(e, |used|)
    requires forall s :: 0 <= s < |used| ==> (used2[s] <==> (used[s] && !InExtent(dir[i], s)) || InExtent(e, s))
    ensures BitmapExact(dir[i := e], used2)
  {
    var dir2 := dir[i := e];
    forall s | 0 <= s < |used|
      ensures used2[s] <==> Occupied(dir2, s)
    {
      if InExtent(e, s) {
        assert InExtent(dir2[i], s);
      }
      if Occupied(dir2, s) && s >= DATA_START {
        var k :| 0 <= k < |dir2| && InExtent(dir2[k], s);
        if k != i {
          assert InExtent(dir[k], s) && Occupied(dir, s);
          assert k < i ==> Apart(dir[k], dir[i]);
          assert i < k ==> Apart(dir[i], dir[k]);
        }
      }
      if used[s] && !InExtent(dir[i], s) && s >= DATA_START {
        var k :| 0 <= k < |dir| && InExtent(dir[k], s);
        assert InExtent(dir2[k], s);
      }
      if s < DATA_START {
        assert !InExtent(dir[i], s) && Occupied(dir, s);
      }
    }
  }

  /** Writing a directory entry: the directory afterwards, and the data untouched. */
  lemma DirAfterWrite(disk: seq<Sector>, i: nat, e: DirEntry)
    requires |disk| > DATA_START && i < MAX_FILES
    ensures Dir(WriteEntry(disk, i, e)) == Dir(disk)[i := e]
    ensures forall s :: 0 <= s < |disk| && !(DIR_START <= s < DATA_START) ==> WriteEntry(disk, i, e)[s] == disk[s]
  {
    EntryStored(disk, i, e);
    hide ReadEntry, WriteEntry;
  }

  /** Writing sectors outside the directory leaves the directory. */
  lemma DirUntouched(disk: seq<Sector>, disk2: seq<Sector>)
    requires |disk| > DATA_START && |disk2| == |disk|
    requires forall s :: DIR_START <= s < DATA_START ==> disk2[s] == disk[s]
    ensures Dir(disk2) == Dir(disk)
  {
    forall i | 0 <= i < MAX_FILES
      ensures ReadEntry(disk2, i) == ReadEntry(disk, i)
    {
      assert DIR_START <= EntrySector(i) < DATA_START;
    }
    hide ReadEntry;
    assert Dir(disk2) == Dir(disk);
  }

  /** The superblock is no part of any file. */
  lemma SuperChange(disk: seq<Sector>, s: Sector)
    requires DiskOk(disk)
    ensures DiskOk(disk[0 := s]) && Files(disk[0 := s]) == Files(disk) && Dir(disk[0 := s]) == Dir(disk)
  {
    DirUntouched(disk, disk[0 := s]);
    FreeSectorsChange(disk, disk[0 := s]);
  }

  lemma FileAt(disk: seq<Sector>, i: nat)
    requires DiskOk(disk) && i < MAX_FILES && Live(Dir(disk)[i])
    ensures NameOf(Dir(disk)[i]) in Files(disk)
    ensures Files(disk)[NameOf(Dir(disk)[i])] == Content(disk, Dir(disk)[i])
  {
    hide ReadEntry, Content;
  }

  lemma NoFile(disk: seq<Sector>, n: Name)
    requires DiskOk(disk) && forall i :: 0 <= i < MAX_FILES ==> !(Live(Dir(disk)[i]) && NameOf(Dir(disk)[i]) == n)
    ensures n !in Files(disk)
  {
    hide ReadEntry, Content;
  }
}
