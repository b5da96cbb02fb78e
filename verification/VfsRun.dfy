/** Runs of the file layer against its specification: a finite map from names to byte strings
    and a table of shared offsets. */
module VfsRun {
  import opened FsCodec
  import opened FsState
  import opened SimpleFs
  import opened Vfs

  datatype Call =
    | OpenCall(path: seq<Byte>, flags: Flags)
    | ReadCall(fd: int, count: nat)
    | WriteCall(fd: int, data: seq<Byte>)
    | CloseCall(fd: int)
    | RetainCall(fd: int)
    | RemountCall

  datatype Answer = Answer(status: Status, fd: nat, bytes: seq<Byte>)

  /** A call with C strings and a transfer that fits the user address space. */
  predicate WellFormedCall(c: Call) {
    match c
    case OpenCall(path, _) => 0 !in path
    case WriteCall(_, data) => |data| <= MAX_TRANSFER
    case _ => true
  }

  /** One step of the specification, and the answers it allows. */
  ghost predicate SpecStep(v: View, c: Call, a: Answer, v2: View) {
    match c
    case OpenCall(path, flags) =>
      if a.status == Ok then Opened(v, path, flags, a.fd) && v2 == AfterOpen(v, path, flags, a.fd)
      else OpenRefused(v, path, flags, a.status) && v2 == v
    case ReadCall(fd, count) =>
      if a.status == Ok then
        && MayRead(v, fd) && ViewOk(v)
        && a.bytes == Slice(v.files[NameAt(v, fd)], v.table[fd].offset, count)
        && v2 == Advanced(v, fd, |a.bytes|)
      else a.status == Ebadf && !MayRead(v, fd) && v2 == v
    case WriteCall(fd, data) =>
      if a.status == Ok then MayWrite(v, fd) && ViewOk(v) && v2 == AfterWrite(v, fd, data)
      else if a.status == Ebadf then !MayWrite(v, fd) && v2 == v
      else a.status == Enospc && v2 == v
    case CloseCall(fd) =>
      if a.status == Ok then Open?(v.table, fd) && v2 == View(v.files, Released(v.table, fd))
      else a.status == Ebadf && !Open?(v.table, fd) && v2 == v
    case RetainCall(fd) =>
      if a.status == Ok then Open?(v.table, fd) && v.table[fd].refs != 0xFFFF_FFFF && v2 == View(v.files, Retained(v.table, fd))
      else a.status == Ebadf && !(Open?(v.table, fd) && v.table[fd].refs != 0xFFFF_FFFF) && v2 == v
    case RemountCall => a.status == Ok && v2 == v
  }

  /** The sectors and the bitmap under a view. */
  datatype Device = Device(disk: seq<Sector>, used: seq<bool>)

  ghost predicate Shows(d: Device, v: View) { DiskOk(d.disk) && v.files == Files(d.disk) }

  /** A write is refused for want of space exactly if the file would have to grow and no free run
      of sectors is long enough. */
  ghost predicate FullIff(d: Device, v: View, c: Call, a: Answer) {
    c.WriteCall? ==> (a.status == Enospc <==> Full(d.disk, d.used, v, c.fd, c.data))
  }

  /** The views and devices of a whole run: one more than there are calls. */
  ghost predicate SpecRun(views: seq<View>, devices: seq<Device>, calls: seq<Call>, answers: seq<Answer>) {
    && |answers| == |calls| && |views| == |devices| == |calls| + 1
    && (forall k :: 0 <= k < |views| ==> Shows(devices[k], views[k]))
    && (forall k :: 0 <= k < |calls| ==> SpecStep(views[k], calls[k], answers[k], views[k + 1]))
    && (forall k :: 0 <= k < |calls| ==> FullIff(devices[k], views[k], calls[k], answers[k]))
  }

  lemma SpecMore(views: seq<View>, devices: seq<Device>, calls: seq<Call>, answers: seq<Answer>, c: Call, a: Answer, v: View, d: Device)
    requires SpecRun(views, devices, calls, answers) && Shows(d, v)
    requires SpecStep(views[|calls|], c, a, v) && FullIff(devices[|calls|], views[|calls|], c, a)
    ensures SpecRun(views + [v], devices + [d], calls + [c], answers + [a])
  {
    hide SpecStep, FullIff, Shows;
  }

  ghost function DeviceOf(vfs: OpenFiles): Device
    reads vfs.fs
  {
    Device(vfs.fs.disk, vfs.fs.used)
  }

  lemma ValidShows(vfs: OpenFiles)
    requires vfs.Valid()
    ensures Shows(DeviceOf(vfs), vfs.Seen())
  {
  }

  method Perform(vfs: OpenFiles, c: Call) returns (a: Answer)
    requires vfs.Valid() && WellFormedCall(c)
    modifies vfs, vfs.fs
    ensures vfs.Valid() && SpecStep(old(vfs.Seen()), c, a, vfs.Seen())
    ensures FullIff(old(DeviceOf(vfs)), old(vfs.Seen()), c, a)
  {
    hide DiskOk, SuperOk, BitmapExact, Files, ViewOk, TableOk, Opened, OpenRefused, AfterOpen, AfterWrite, Slice, Full;
    match c {
      case OpenCall(path, flags) =>
        var status, fd := vfs.Open(path, flags);
        return Answer(status, fd, []);
      case ReadCall(fd, count) =>
        var status, bytes := vfs.Read(fd, count);
        return Answer(status, 0, bytes);
      case WriteCall(fd, data) =>
        var status := vfs.Write(fd, data);
        return Answer(status, 0, []);
      case CloseCall(fd) =>
        var status := vfs.Close(fd);
        return Answer(status, 0, []);
      case RetainCall(fd) =>
        var status := vfs.Retain(fd);
        return Answer(status, 0, []);
      case RemountCall =>
        var status := vfs.fs.Mount();
        return Answer(status, 0, []);
    }
  }

  /** SimpleFS under VFS refines the map: every answer of every run is the specification's, ENOSPC
      comes exactly when no run of free sectors is long enough, and the files and offsets at the
      end are the specification's. */
  method Run(vfs: OpenFiles, calls: seq<Call>) returns (answers: seq<Answer>, ghost views: seq<View>, ghost devices: seq<Device>)
    requires vfs.Valid() && forall k :: 0 <= k < |calls| ==> WellFormedCall(calls[k])
    modifies vfs, vfs.fs
    ensures vfs.Valid() && SpecRun(views, devices, calls, answers)
    ensures views[0] == old(vfs.Seen()) && views[|calls|] == vfs.Seen()
    ensures devices[0] == old(DeviceOf(vfs)) && devices[|calls|] == DeviceOf(vfs)
  {
    ValidShows(vfs);
    hide DiskOk, SuperOk, BitmapExact, Files, ViewOk, SpecStep, FullIff;
    answers, views, devices := [], [vfs.Seen()], [DeviceOf(vfs)];
    for i := 0 to |calls|
      invariant vfs.Valid() && |answers| == i && |views| == |devices| == i + 1
      invariant views[0] == old(vfs.Seen()) && views[i] == vfs.Seen()
      invariant devices[0] == old(DeviceOf(vfs)) && devices[i] == DeviceOf(vfs)
      invariant SpecRun(views, devices, calls[..i], answers)
    {
      hide DiskOk, SuperOk, BitmapExact, Files, ViewOk, SpecStep, FullIff, Shows, SpecRun;
      var a := Perform(vfs, calls[i]);
      ValidShows(vfs);
      SpecMore(views, devices, calls[..i], answers, calls[i], a, vfs.Seen(), DeviceOf(vfs));
      assert calls[..i + 1] == calls[..i] + [calls[i]];
      answers, views, devices := answers + [a], views + [vfs.Seen()], devices + [DeviceOf(vfs)];
    }
    assert calls[..|calls|] == calls;
  }

  // ---------- what a run means for its callers ----------

  predicate ReadsAt(c: Call, a: Answer, fd: int) { c.ReadCall? && c.fd == fd && a.status == Ok }

  /** The bytes that the first k calls read through the descriptor, one read after the other. */
  ghost function ReadThrough(calls: seq<Call>, answers: seq<Answer>, fd: int, k: nat): seq<Byte>
    requires k <= |calls| == |answers|
  {
    if k == 0 then []
    else ReadThrough(calls, answers, fd, k - 1) + if ReadsAt(calls[k - 1], answers[k - 1], fd) then answers[k - 1].bytes else []
  }

  /** How many holders the descriptor has gained or lost in the first k calls. */
  ghost function HoldersGained(calls: seq<Call>, answers: seq<Answer>, fd: int, k: nat): int
    requires k <= |calls| == |answers|
  {
    if k == 0 then 0
    else HoldersGained(calls, answers, fd, k - 1) +
         if answers[k - 1].status != Ok then 0 else if calls[k - 1] == RetainCall(fd) then 1 else if calls[k - 1] == CloseCall(fd) then -1 else 0
  }

  /** The descriptor stays open on the file, and nobody changes the file or writes through it. */
  ghost predicate Quiet(views: seq<View>, calls: seq<Call>, fd: int, name: Name, content: seq<Byte>) {
    && |views| == |calls| + 1
    && (forall k :: 0 <= k < |views| ==> OpenOn(views[k], fd, name) && name in views[k].files && views[k].files[name] == content)
    && (forall k :: 0 <= k < |calls| ==> !(calls[k].WriteCall? && calls[k].fd == fd))
  }

  ghost predicate OpenOn(v: View, fd: int, name: Name) {
    Open?(v.table, fd) && v.table[fd].path != [] && NameAt(v, fd) == name
  }

  /** Only a read or write through the descriptor moves its offset, a read by what it returns. */
  lemma OffsetMoves(v: View, c: Call, a: Answer, v2: View, fd: int, name: Name)
    requires SpecStep(v, c, a, v2) && OpenOn(v, fd, name) && OpenOn(v2, fd, name) && !(c.WriteCall? && c.fd == fd)
    ensures v2.table[fd].offset == v.table[fd].offset + if ReadsAt(c, a, fd) then |a.bytes| else 0
    ensures ReadsAt(c, a, fd) && name in v.files ==> a.bytes == Slice(v.files[name], v.table[fd].offset, c.count)
  {
    hide Overwrite, Slice;
  }

  /** Successive reads of one descriptor give one stretch of the file: nothing is skipped, repeated or
      invented, whatever other calls come between. */
  lemma {:induction false} ReadsJoin(views: seq<View>, devices: seq<Device>, calls: seq<Call>, answers: seq<Answer>, fd: int, name: Name, content: seq<Byte>, k: nat)
    requires SpecRun(views, devices, calls, answers) && Quiet(views, calls, fd, name, content) && k <= |calls|
    requires views[0].table[fd].offset <= |content|
    ensures Open?(views[k].table, fd) && views[0].table[fd].offset <= views[k].table[fd].offset <= |content|
    ensures ReadThrough(calls, answers, fd, k) == content[views[0].table[fd].offset..views[k].table[fd].offset]
  {
    hide SpecStep, FullIff, Shows, Slice;
    assert OpenOn(views[k], fd, name);
    if k > 0 {
      ReadsJoin(views, devices, calls, answers, fd, name, content, k - 1);
      OffsetMoves(views[k - 1], calls[k - 1], answers[k - 1], views[k], fd, name);
      var at := views[k - 1].table[fd].offset;
      if ReadsAt(calls[k - 1], answers[k - 1], fd) {
        SliceMeans(content, at, calls[k - 1].count);
        assert answers[k - 1].bytes == content[at..views[k].table[fd].offset];
      }
    }
  }

  /** What was written at an offset is read back there, through whichever descriptor. */
  lemma WrittenIsRead(v: View, fd: int, data: seq<Byte>, a: Answer, v2: View, w: View, fd2: int, count: nat, b: Answer, w2: View)
    requires SpecStep(v, WriteCall(fd, data), a, v2) && a.status == Ok && data != []
    requires SpecStep(w, ReadCall(fd2, count), b, w2) && b.status == Ok
    requires OpenOn(v, fd, NameAt(v, fd)) && OpenOn(w, fd2, NameAt(v, fd))
    requires NameAt(v, fd) in w.files && NameAt(v, fd) in v2.files && w.files[NameAt(v, fd)] == v2.files[NameAt(v, fd)]
    requires w.table[fd2].offset == v.table[fd].offset && count == |data|
    ensures b.bytes == data
    ensures v2.table[fd].offset == v.table[fd].offset + |data|
  {
    SliceMeans(w.files[NameAt(v, fd)], v.table[fd].offset, count);
    hide Slice;
  }

  /** As long as a descriptor is open, its holders are those it had, and one more for every retain and
      one fewer for every close. */
  lemma {:induction false} HoldersCounted(views: seq<View>, devices: seq<Device>, calls: seq<Call>, answers: seq<Answer>, fd: int, k: nat)
    requires SpecRun(views, devices, calls, answers) && k <= |calls|
    requires forall j :: 0 <= j <= k ==> Open?(views[j].table, fd)
    ensures Open?(views[0].table, fd) && Open?(views[k].table, fd) && views[k].table[fd].refs == views[0].table[fd].refs + HoldersGained(calls, answers, fd, k)
  {
    hide SpecStep, FullIff, Shows;
    if k > 0 {
      HoldersCounted(views, devices, calls, answers, fd, k - 1);
      HoldersMove(views[k - 1], calls[k - 1], answers[k - 1], views[k], fd);
    }
  }

  /** A close by the last holder, and nothing else, closes the descriptor. */
  lemma HoldersMove(v: View, c: Call, a: Answer, v2: View, fd: int)
    requires SpecStep(v, c, a, v2) && Open?(v.table, fd)
    ensures Open?(v2.table, fd) <==> !(a.status == Ok && c == CloseCall(fd) && v.table[fd].refs <= 1)
    ensures Open?(v2.table, fd) ==>
      v2.table[fd].refs == v.table[fd].refs + (if a.status != Ok then 0 else if c == RetainCall(fd) then 1 else if c == CloseCall(fd) then -1 else 0)
  {
    hide Overwrite, Slice;
  }
}
