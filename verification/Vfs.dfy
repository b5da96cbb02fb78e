/** kernel/vfs.c: the table of open files with their shared offsets, over SimpleFS. */
module Vfs {
  import opened FsCodec
  import opened FsState
  import opened FsLemmas
  import opened SimpleFs

  const MAX_OPEN: nat := 16
  const MAX_PATH: nat := 64
  /** The largest file a device can hold, which bounds every offset. */
  const MAX_BYTES: nat := 4096 * 512
  /** The size of the user address space, which bounds every transfer. */
  const MAX_TRANSFER: nat := 0x8000_0000

  /** The bits of an open call; `other` stands for any bit without a meaning. */
  datatype Flags = Flags(read: bool, write: bool, create: bool, trunc: bool, other: bool)

  datatype OpenFile = Closed | OpenFile(refs: nat, path: seq<Byte>, flags: Flags, offset: nat)

  /** vfs_flags_valid */
  predicate FlagsValid(f: Flags) {
    !f.other && (f.read || f.write) && (f.trunc ==> f.write) && (f.create ==> f.write)
  }

  /** Open accepts exactly the bits that have a meaning, with some access asked for, and truncating or
      creating only together with writing. */
  lemma FlagsMean(f: Flags)
    ensures FlagsValid(f) ==> !f.other && (f.read || f.write)
    ensures FlagsValid(f) && (f.trunc || f.create) ==> f.write
    ensures !f.other && f.write ==> FlagsValid(f)
    ensures f == Flags(true, false, false, false, false) ==> FlagsValid(f)
  {
  }

  /** What programs see: the files and the open-file table. */
  datatype View = View(files: map<Name, seq<Byte>>, table: seq<OpenFile>)

  predicate Open?(table: seq<OpenFile>, fd: int) { 0 <= fd < |table| && table[fd].OpenFile? }

  ghost predicate TableOk(table: seq<OpenFile>) {
    && |table| == MAX_OPEN
    && forall fd :: 0 <= fd < MAX_OPEN ==> SlotOk(table[fd])
  }

  ghost predicate SlotOk(f: OpenFile) {
    f.OpenFile? ==>
      && 1 <= f.refs <= 0xFFFF_FFFF && 0 !in f.path && |f.path| < MAX_PATH
      && GoodPath(f.path) && f.offset <= MAX_BYTES
  }

  ghost function NameAt(v: View, fd: int): Name
    requires Open?(v.table, fd) && v.table[fd].path != []
  {
    v.table[fd].path[1..]
  }

  /** Open files name existing files: nothing removes a file. */
  ghost predicate ViewOk(v: View) {
    && TableOk(v.table)
    && forall fd :: Open?(v.table, fd) ==> NameAt(v, fd) in v.files
  }

  lemma SlotReplaced(v: View, files: map<Name, seq<Byte>>, fd: int, f: OpenFile)
    requires ViewOk(v) && 0 <= fd < MAX_OPEN && v.files.Keys <= files.Keys
    requires SlotOk(f) && (f.OpenFile? ==> f.path != [] && f.path[1..] in files)
    ensures ViewOk(View(files, v.table[fd := f]))
  {
    var table2 := v.table[fd := f];
    forall k | Open?(table2, k)
      ensures SlotOk(table2[k]) && table2[k].path != [] && table2[k].path[1..] in files
    {
      if k != fd {
        assert Open?(v.table, k) && NameAt(v, k) in v.files;
      }
    }
  }

  ghost predicate MayRead(v: View, fd: int) { Open?(v.table, fd) && v.table[fd].flags.read }

  ghost predicate MayWrite(v: View, fd: int) { Open?(v.table, fd) && v.table[fd].flags.write }

  lemma DeviceSize(disk: seq<Sector>)
    requires DiskOk(disk)
    ensures |disk| > DATA_START
  {
  }

  /** The file would have to grow for the write and no free run of sectors is long enough. */
  ghost predicate Full(disk: seq<Sector>, used: seq<bool>, v: View, fd: int, data: seq<Byte>) {
    && |disk| > DATA_START && MayWrite(v, fd) && v.table[fd].path != [] && data != []
    && NoRoom(disk, used, NameAt(v, fd), v.table[fd].offset + |data|)
  }

  /** The conditions under which open succeeds with descriptor fd. */
  ghost predicate Opened(v: View, path: seq<Byte>, flags: Flags, fd: nat) {
    && FlagsValid(flags) && |path| < MAX_PATH && GoodPath(path)
    && (path[1..] in v.files || flags.create)
    && fd < |v.table| && v.table[fd].Closed? && (forall i :: 0 <= i < fd ==> v.table[i].OpenFile?)
  }

  ghost function AfterOpen(v: View, path: seq<Byte>, flags: Flags, fd: nat): View
    requires Opened(v, path, flags, fd)
  {
    View(if path[1..] !in v.files || flags.trunc then v.files[path[1..] := []] else v.files,
         v.table[fd := OpenFile(1, path, flags, 0)])
  }

  /** The reasons for which open may fail. */
  ghost predicate OpenRefused(v: View, path: seq<Byte>, flags: Flags, status: Status) {
    match status
    case Einval => !FlagsValid(flags) || |path| >= MAX_PATH || !GoodPath(path)
    case Emfile => forall i :: 0 <= i < |v.table| ==> v.table[i].OpenFile?
    case Enoent => GoodPath(path) && path[1..] !in v.files && !flags.create
    case Enospc => GoodPath(path) && path[1..] !in v.files && |v.files| == MAX_FILES
    case _ => false
  }

  /** Open takes the lowest closed slot for one holder at offset 0; a missing file is created empty if
      that was asked for, a file that is to be truncated is empty, and every other file is as it was. */
  lemma OpenMeans(v: View, path: seq<Byte>, flags: Flags, fd: nat)
    requires Opened(v, path, flags, fd)
    ensures var v2 := AfterOpen(v, path, flags, fd);
      && (forall i :: 0 <= i < fd ==> v.table[i].OpenFile?) && v.table[fd].Closed?
      && v2.table == v.table[fd := OpenFile(1, path, flags, 0)]
      && path[1..] in v2.files && v2.files == v.files[path[1..] := v2.files[path[1..]]]
      && v2.files[path[1..]] == (if path[1..] in v.files && !flags.trunc then v.files[path[1..]] else [])
  {
  }

  ghost function Advanced(v: View, fd: int, n: nat): View
    requires Open?(v.table, fd)
  {
    View(v.files, v.table[fd := v.table[fd].(offset := v.table[fd].offset + n)])
  }

  ghost function AfterWrite(v: View, fd: int, data: seq<Byte>): View
    requires ViewOk(v) && Open?(v.table, fd)
  {
    Advanced(View(if data == [] then v.files
               else v.files[NameAt(v, fd) := Overwrite(v.files[NameAt(v, fd)], v.table[fd].offset, data)], v.table),
          fd, |data|)
  }

  /** One holder gives the open file up; the slot is recycled with the last one. */
  function Released(table: seq<OpenFile>, fd: int): seq<OpenFile>
    requires Open?(table, fd)
  {
    table[fd := if table[fd].refs > 1 then table[fd].(refs := table[fd].refs - 1) else Closed]
  }

  function Retained(table: seq<OpenFile>, fd: int): seq<OpenFile>
    requires Open?(table, fd)
  {
    table[fd := table[fd].(refs := table[fd].refs + 1)]
  }

  class OpenFiles {
    const fs: FileSystem
    var mounted: bool
    var table: seq<OpenFile>

    constructor (device: FileSystem)
      ensures fs == device && !mounted && table == seq(MAX_OPEN, _ => Closed) && TableOk(table)
    {
      fs := device;
      mounted := false;
      table := seq(MAX_OPEN, _ => Closed);
    }

    ghost predicate Valid()
      reads this, fs
    {
      mounted && fs.Valid() && ViewOk(Seen())
    }

    ghost function Seen(): View
      requires fs.Valid()
      reads this, fs
    {
      View(Files(fs.disk), table)
    }

    /** vfs_format: no open files, an empty file system, not yet mounted. */
    method FormatRoot() returns (status: Status)
      modifies this, fs
      ensures status == Ok <==> DATA_START < |old(fs.disk)| <= MAX_TRACKED
      ensures status == Ok ==> fs.Valid() && !mounted && ViewOk(Seen()) && Files(fs.disk) == map[]
    {
      hide DiskOk, SuperOk, BitmapExact, Files;
      table := seq(MAX_OPEN, _ => Closed);
      mounted := false;
      status := fs.Format();
    }

    /** vfs_mount: what was on the device and what was open is there again. */
    method MountRoot() returns (status: Status)
      modifies this`mounted, fs
      ensures old(fs.Valid() && ViewOk(Seen())) ==> status == Ok && Valid() && Seen() == old(Seen())
      ensures status != Ok ==> !mounted
    {
      hide DiskOk, SuperOk, BitmapExact, Files, ViewOk;
      status := fs.Mount();
      mounted := status == Ok;
    }

    /** vfs_alloc_fd: the lowest closed slot. */
    method AllocFd() returns (fd: int)
      requires |table| == MAX_OPEN
      ensures fd < 0 <==> forall i :: 0 <= i < MAX_OPEN ==> table[i].OpenFile?
      ensures fd >= 0 ==> fd < MAX_OPEN && table[fd].Closed? && forall i :: 0 <= i < fd ==> table[i].OpenFile?
    {
      for i := 0 to MAX_OPEN
        invariant forall k :: 0 <= k < i ==> table[k].OpenFile?
      {
        if table[i].Closed? {
          return i;
        }
      }
      return -1;
    }

    /** vfs_open */
    method Open(path: seq<Byte>, flags: Flags) returns (status: Status, fd: nat)
      requires Valid() && 0 !in path
      modifies this`table, fs`disk, fs`used
      ensures Valid()
      ensures status == Ok ==> Opened(old(Seen()), path, flags, fd) && Seen() == AfterOpen(old(Seen()), path, flags, fd)
      ensures status != Ok ==> Seen() == old(Seen())
      ensures status == Ok || OpenRefused(old(Seen()), path, flags, status)
    {
      hide DiskOk, SuperOk, BitmapExact, Files;
      fd := 0;
      if !FlagsValid(flags) || |path| >= MAX_PATH {
        return Einval, 0;
      }
      var slot := AllocFd();
      if slot < 0 {
        return Emfile, 0;
      }
      AllLiveMeansFull(fs.disk);
      status := fs.Open(path, flags.create, flags.trunc);
      if status != Ok {
        return;
      }
      SlotReplaced(old(Seen()), Files(fs.disk), slot, OpenFile(1, path, flags, 0));
      table := table[slot := OpenFile(1, path, flags, 0)];
      return Ok, slot;
    }

    /** vfs_stat */
    method Stat(path: seq<Byte>) returns (status: Status, size: nat)
      requires Valid() && 0 !in path
      ensures status in {Ok, Einval, Enoent} && (status == Einval <==> !GoodPath(path))
      ensures status == Ok <==> GoodPath(path) && path[1..] in Seen().files
      ensures status == Ok ==> size == |Seen().files[path[1..]]|
    {
      hide DiskOk, SuperOk, BitmapExact, Files;
      status, size := fs.Stat(path);
    }

    /** vfs_read: the bytes at the shared offset, which moves past them. */
    method Read(fd: int, count: nat) returns (status: Status, out: seq<Byte>)
      requires Valid()
      modifies this`table
      ensures Valid()
      ensures status == if MayRead(old(Seen()), fd) then Ok else Ebadf
      ensures status == Ok ==>
        && out == Slice(old(Seen()).files[NameAt(old(Seen()), fd)], old(table)[fd].offset, count)
        && Seen() == Advanced(old(Seen()), fd, |out|)
      ensures status != Ok ==> Seen() == old(Seen())
    {
      hide DiskOk, SuperOk, BitmapExact, Files;
      out := [];
      if !Open?(table, fd) || !table[fd].flags.read {
        return Ebadf, [];
      }
      status, out := fs.Read(table[fd].path, table[fd].offset, count);
      BoundedFile(fs.disk, table[fd].path[1..]);
      SlotReplaced(Seen(), Files(fs.disk), fd, table[fd].(offset := table[fd].offset + |out|));
      table := table[fd := table[fd].(offset := table[fd].offset + |out|)];
    }

    /** vfs_write: the bytes go to the shared offset, which moves past them. */
    method Write(fd: int, data: seq<Byte>) returns (status: Status)
      requires Valid() && |data| <= MAX_TRANSFER
      modifies this`table, fs`disk, fs`used, fs`sb
      ensures Valid()
      ensures status in {Ok, Ebadf, Enospc}
      ensures status == Ebadf <==> !MayWrite(old(Seen()), fd)
      ensures status == Ok ==> Seen() == AfterWrite(old(Seen()), fd, data)
      ensures status != Ok ==> Seen() == old(Seen()) && fs.disk == old(fs.disk) && fs.used == old(fs.used)
      ensures status == Enospc <==> Full(old(fs.disk), old(fs.used), old(Seen()), fd, data)
    {
      hide DiskOk, SuperOk, BitmapExact, Files, Overwrite, NoRoom;
      DeviceSize(fs.disk);
      if !Open?(table, fd) || !table[fd].flags.write {
        return Ebadf;
      }
      var written;
      status, written := fs.Write(table[fd].path, table[fd].offset, data);
      if status == Ok {
        if data != [] {
          BoundedFile(fs.disk, table[fd].path[1..]);
        }
        SlotReplaced(old(Seen()), Files(fs.disk), fd, table[fd].(offset := table[fd].offset + written));
        table := table[fd := table[fd].(offset := table[fd].offset + written)];
      }
    }

    /** vfs_close */
    method Close(fd: int) returns (status: Status)
      requires Valid()
      modifies this`table
      ensures Valid()
      ensures status == (if Open?(old(table), fd) then Ok else Ebadf)
      ensures Seen() == if status == Ok then old(Seen()).(table := Released(old(table), fd)) else old(Seen())
    {
      hide DiskOk, SuperOk, BitmapExact, Files;
      if !Open?(table, fd) {
        return Ebadf;
      }
      SlotReplaced(Seen(), Files(fs.disk), fd, Released(table, fd)[fd]);
      if table[fd].refs > 1 {
        table := table[fd := table[fd].(refs := table[fd].refs - 1)];
        return Ok;
      }
      table := table[fd := Closed];
      return Ok;
    }

    /** vfs_retain */
    method Retain(fd: int) returns (status: Status)
      requires Valid()
      modifies this`table
      ensures Valid()
      ensures status == (if Open?(old(table), fd) && old(table)[fd].refs != 0xFFFF_FFFF then Ok else Ebadf)
      ensures Seen() == if status == Ok then old(Seen()).(table := Retained(old(table), fd)) else old(Seen())
    {
      hide DiskOk, SuperOk, BitmapExact, Files;
      if !Open?(table, fd) || table[fd].refs == 0xFFFF_FFFF {
        return Ebadf;
      }
      SlotReplaced(Seen(), Files(fs.disk), fd, Retained(table, fd)[fd]);
      table := table[fd := table[fd].(refs := table[fd].refs + 1)];
      return Ok;
    }
  }

  /** No file is larger than the device. */
  lemma BoundedFile(disk: seq<Sector>, name: Name)
    requires DiskOk(disk) && name in Files(disk)
    ensures |Files(disk)[name]| <= MAX_BYTES
  {
    hide ReadEntry, Content, NameOf, ZeroTail;
    var i :| 0 <= i < MAX_FILES && Live(Dir(disk)[i]) && NameOf(Dir(disk)[i]) == name &&
             Files(disk)[name] == Content(disk, Dir(disk)[i]);
    EntryFacts(disk, i);
    SmallFile(Dir(disk)[i], |disk|);
  }

  /** With every directory entry in use there are MAX_FILES files. */
  lemma AllLiveMeansFull(disk: seq<Sector>)
    requires DiskOk(disk)
    ensures (forall i :: 0 <= i < MAX_FILES ==> Live(Dir(disk)[i])) ==> |Files(disk)| == MAX_FILES
  {
    hide ReadEntry, Content, NameOf, ZeroTail, ValidName;
    var dir := Dir(disk);
    if forall i :: 0 <= i < MAX_FILES ==> Live(dir[i]) {
      DistinctNames(dir, MAX_FILES);
      assert Files(disk).Keys == set i | 0 <= i < MAX_FILES :: NameOf(dir[i]);
    }
  }

  lemma DistinctNames(dir: seq<DirEntry>, k: nat)
    requires k <= |dir| && NamesUnique(dir) && forall i :: 0 <= i < |dir| ==> Live(dir[i])
    ensures |set i | 0 <= i < k :: NameOf(dir[i])| == k
  {
    hide NameOf, ValidName, Live;
    var names := set i | 0 <= i < k :: NameOf(dir[i]);
    if k == 0 {
      assert names == {};
    } else {
      DistinctNames(dir, k - 1);
      var fewer := set i | 0 <= i < k - 1 :: NameOf(dir[i]);
      assert names == fewer + {NameOf(dir[k - 1])};
    }
  }
}
