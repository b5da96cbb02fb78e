/** kernel/syscall.c: copying the argument vectors of exec out of the old address space and
    building the initial stack of the new one. */
module ExecStack {

  const MAX_ARGS: nat := 16
  const MAX_ENVS: nat := 16
  const MAX_STRING: nat := 256
  const MAX_BYTES: nat := 3072
  const PAGE: nat := 4096
  const STACK_TOP: nat := 0xB000_0000
  const STACK_BASE: nat := STACK_TOP - PAGE
  const WORD: nat := 0x1_0000_0000

  type byte = x: int | 0 <= x < 256

  // ---------- strings and vectors in user memory ----------

  /** The readable bytes of an address space. */
  type Memory = map<nat, byte>

  /** 32-bit address arithmetic. */
  function Plus(a: nat, n: nat): nat { (a + n) % WORD }

  function Value(b0: byte, b1: byte, b2: byte, b3: byte): nat {
    b0 + 0x100 * b1 + 0x1_0000 * b2 + 0x100_0000 * b3
  }

  predicate WordReadable(u: Memory, a: nat) {
    a in u && a + 1 in u && a + 2 in u && a + 3 in u
  }

  function WordAt(u: Memory, a: nat): nat
    requires WordReadable(u, a)
  {
    Value(u[a], u[a + 1], u[a + 2], u[a + 3])
  }

  /** A word lies with its lowest byte first, and the pointers of a vector follow one another. */
  lemma WordsMean(u: Memory, a: nat, i: nat)
    requires a < 0x1_0000_0000 && WordReadable(u, a)
    ensures WordAt(u, a) == (u[a] as int) + 256 * (u[a + 1] as int) + 65536 * (u[a + 2] as int) + 16777216 * (u[a + 3] as int)
    ensures Slot(a, 0) == a && (a + 4 * i < 0x1_0000_0000 ==> Slot(a, i) == a + 4 * i)
  {
  }

  /** A NUL-terminated string lies at p. */
  ghost predicate StringAt(u: Memory, p: nat, s: seq<byte>) {
    && (forall j :: 0 <= j <= |s| ==> Plus(p, j) in u)
    && (forall j :: 0 <= j < |s| ==> s[j] == u[Plus(p, j)] && s[j] != 0)
    && u[Plus(p, |s|)] == 0
  }

  /** A NULL-terminated vector of string pointers lies at v. */
  ghost predicate VectorAt(u: Memory, v: nat, strs: seq<seq<byte>>) {
    && (forall i :: 0 <= i <= |strs| ==> WordReadable(u, Slot(v, i)))
    && (forall i :: 0 <= i < |strs| ==> WordAt(u, Slot(v, i)) != 0 && StringAt(u, WordAt(u, Slot(v, i)), strs[i]))
    && WordAt(u, Slot(v, |strs|)) == 0
  }

  function Slot(v: nat, i: nat): nat { Plus(v, 4 * i) }

  /** What exec takes a vector argument to mean: a null pointer is the empty vector. */
  ghost predicate Vector(u: Memory, v: nat, strs: seq<seq<byte>>) {
    if v == 0 then strs == [] else VectorAt(u, v, strs)
  }

  /** Bytes of the strings with their terminators. */
  ghost function Size(strs: seq<seq<byte>>): nat {
    if strs == [] then 0 else Size(strs[..|strs| - 1]) + |strs[|strs| - 1]| + 1
  }

  lemma StringUnique(u: Memory, p: nat, s: seq<byte>, t: seq<byte>)
    requires StringAt(u, p, s) && StringAt(u, p, t)
    ensures s == t
  {
  }

  /** A vector pointer denotes at most one list of strings. */
  lemma VectorUnique(u: Memory, v: nat, a: seq<seq<byte>>, b: seq<seq<byte>>)
    requires Vector(u, v, a) && Vector(u, v, b)
    ensures a == b
  {
    if v != 0 {
      forall i | 0 <= i < |a| && i < |b|
        ensures a[i] == b[i]
      {
        StringUnique(u, WordAt(u, Slot(v, i)), a[i], b[i]);
      }
    }
  }

  // ---------- what the copy accepts ----------

  datatype Status = Success | Fault | TooBig

  datatype Outcome<T> = Done(value: T) | Fail(status: Status)

  /** Copying the string at p of which `done` is copied, into `room` bytes. */
  ghost function ReadString(u: Memory, p: nat, done: seq<byte>, room: int): (r: Outcome<seq<byte>>)
    ensures r.Fail? ==> r.status != Success
    decreases MAX_STRING - |done|
  {
    if |done| >= MAX_STRING || |done| >= room then Fail(TooBig)
    else if Plus(p, |done|) !in u then Fail(Fault)
    else if u[Plus(p, |done|)] == 0 then Done(done)
    else ReadString(u, p, done + [u[Plus(p, |done|)]], room)
  }

  /** The bytes before the terminator. */
  ghost predicate Before(u: Memory, p: nat, s: seq<byte>) {
    forall j :: 0 <= j < |s| ==> Plus(p, j) in u && s[j] == u[Plus(p, j)] && s[j] != 0
  }

  /** A string is accepted exactly when it is there, shorter than 256 bytes, and fits. */
  lemma {:induction false} ReadStringIff(u: Memory, p: nat, done: seq<byte>, room: int, s: seq<byte>)
    requires Before(u, p, done)
    ensures ReadString(u, p, done, room) == Done(s) <==>
              StringAt(u, p, s) && |done| <= |s| < MAX_STRING && |s| < room
    decreases MAX_STRING - |done|
  {
    if |done| < MAX_STRING && |done| < room && Plus(p, |done|) in u {
      if u[Plus(p, |done|)] == 0 {
        assert StringAt(u, p, done);
        if StringAt(u, p, s) {
          StringUnique(u, p, s, done);
        }
      } else {
        ReadStringIff(u, p, done + [u[Plus(p, |done|)]], room, s);
      }
    }
  }

  /** Copying the vector at v of which `done` is copied. */
  ghost function ReadVector(u: Memory, v: nat, done: seq<seq<byte>>, limit: nat, room: int): (r: Outcome<seq<seq<byte>>>)
    ensures r.Fail? ==> r.status != Success
    decreases limit - |done|
  {
    var slot := Slot(v, |done|);
    if !WordReadable(u, slot) then Fail(Fault)
    else if WordAt(u, slot) == 0 then Done(done)
    else if |done| >= limit then Fail(TooBig)
    else match ReadString(u, WordAt(u, slot), [], room - Size(done))
      case Done(s) => ReadVector(u, v, done + [s], limit, room)
      case Fail(e) => Fail(e)
  }

  ghost predicate Short(strs: seq<seq<byte>>) {
    forall i :: 0 <= i < |strs| ==> |strs[i]| < MAX_STRING
  }

  ghost predicate PrefixAt(u: Memory, v: nat, strs: seq<seq<byte>>) {
    forall i :: 0 <= i < |strs| ==>
      WordReadable(u, Slot(v, i)) && WordAt(u, Slot(v, i)) != 0 && StringAt(u, WordAt(u, Slot(v, i)), strs[i])
  }

  /** The limits of exec on a vector. */
  ghost predicate Fits(strs: seq<seq<byte>>, limit: nat, room: int) {
    |strs| <= limit && Short(strs) && Size(strs) <= room
  }

  /** The limits are a number of strings, 255 bytes for each, and room for all with their NULs. */
  lemma FitsMeans(strs: seq<seq<byte>>, limit: nat, room: int)
    ensures Fits(strs, limit, room) <==> |strs| <= limit && (forall i :: 0 <= i < |strs| ==> |strs[i]| <= 255) && Size(strs) <= room
    ensures Size([]) == 0 && forall s :: Size(strs + [s]) == Size(strs) + |s| + 1
  {
    forall s
      ensures Size(strs + [s]) == Size(strs) + |s| + 1
    {
      assert (strs + [s])[..|strs|] == strs;
    }
  }

  /** A vector is accepted exactly when it is there and within the limits. */
  lemma {:induction false} ReadVectorIff(u: Memory, v: nat, done: seq<seq<byte>>, limit: nat, room: int, strs: seq<seq<byte>>)
    requires PrefixAt(u, v, done) && Fits(done, limit, room)
    ensures ReadVector(u, v, done, limit, room) == Done(strs) <==>
              VectorAt(u, v, strs) && |done| <= |strs| && Fits(strs, limit, room)
    decreases limit - |done|
  {
    var slot := Slot(v, |done|);
    if WordReadable(u, slot) {
      if WordAt(u, slot) == 0 {
        DoneVector(u, v, done, strs);
      } else if |done| < limit {
        var p, left := WordAt(u, slot), room - Size(done);
        match ReadString(u, p, [], left)
        case Done(s) =>
          ReadStringIff(u, p, [], left, s);
          assert (done + [s])[..|done|] == done;
          ReadVectorIff(u, v, done + [s], limit, room, strs);
        case Fail(_) =>
          if VectorAt(u, v, strs) && |done| < |strs| && Fits(strs, limit, room) {
            SamePrefix(u, v, done, strs);
            SizeOfNext(strs, done);
            ReadStringIff(u, p, [], left, strs[|done|]);
          }
      }
    }
  }

  lemma SamePrefix(u: Memory, v: nat, done: seq<seq<byte>>, strs: seq<seq<byte>>)
    requires PrefixAt(u, v, done) && VectorAt(u, v, strs) && |done| <= |strs|
    ensures done == strs[..|done|]
  {
    forall i | 0 <= i < |done|
      ensures done[i] == strs[i]
    {
      StringUnique(u, WordAt(u, Slot(v, i)), done[i], strs[i]);
    }
  }

  lemma DoneVector(u: Memory, v: nat, done: seq<seq<byte>>, strs: seq<seq<byte>>)
    requires PrefixAt(u, v, done) && WordReadable(u, Slot(v, |done|)) && WordAt(u, Slot(v, |done|)) == 0
    ensures VectorAt(u, v, done)
    ensures VectorAt(u, v, strs) && |done| <= |strs| ==> strs == done
  {
    if VectorAt(u, v, strs) && |done| <= |strs| {
      SamePrefix(u, v, done, strs);
      assert |strs| == |done|;
    }
  }

  lemma {:induction false} SizePrefix(strs: seq<seq<byte>>, n: nat)
    requires n <= |strs|
    ensures Size(strs[..n]) <= Size(strs)
    decreases |strs|
  {
    if n < |strs| {
      SizePrefix(strs[..|strs| - 1], n);
      assert strs[..|strs| - 1][..n] == strs[..n];
    } else {
      assert strs[..n] == strs;
    }
  }

  lemma SizeOfNext(strs: seq<seq<byte>>, done: seq<seq<byte>>)
    requires |done| < |strs| && done == strs[..|done|]
    ensures Size(done) + |strs[|done|]| + 1 <= Size(strs)
  {
    SizePrefix(strs, |done| + 1);
    assert strs[..|done| + 1][..|done|] == done;
  }

  // ---------- the kernel's copy of the vectors ----------

  /** The string with its terminator lies at an offset of a buffer. */
  ghost predicate Stored(d: seq<byte>, off: nat, s: seq<byte>) {
    && off + |s| < |d| && d[off + |s|] == 0
    && (forall j {:trigger s[j]} :: 0 <= j < |s| ==> s[j] == d[off + j] && s[j] != 0)
  }

  /** The first strings of the vector lie in the used part of the buffer, at their offsets. */
  ghost predicate Held(d: seq<byte>, offsets: seq<nat>, strs: seq<seq<byte>>, used: nat) {
    && |strs| <= |offsets|
    && (forall i :: 0 <= i < |strs| ==> Stored(d, offsets[i], strs[i]) && offsets[i] + |strs[i]| < used)
  }

  lemma HeldKept(d: seq<byte>, d2: seq<byte>, offsets: seq<nat>, offsets2: seq<nat>, strs: seq<seq<byte>>, used: nat, used2: nat)
    requires Held(d, offsets, strs, used) && used <= used2 && used <= |d| <= |d2| && d2[..used] == d[..used]
    requires |strs| <= |offsets2| && offsets2[..|strs|] == offsets[..|strs|]
    ensures Held(d2, offsets2, strs, used2)
  {
    forall i | 0 <= i < |strs|
      ensures offsets2[i] == offsets[i] && Stored(d2, offsets[i], strs[i])
    {
      assert offsets2[..|strs|][i] == offsets[..|strs|][i];
      assert forall k :: 0 <= k < used ==> d2[..used][k] == d[..used][k];
    }
  }

  /** struct exec_vectors */
  class Vectors {
    var argc: nat
    var envc: nat
    var bytesUsed: nat
    const argvOffsets: array<nat>
    const envOffsets: array<nat>
    const data: array<byte>

    ghost predicate Valid()
      reads this
    {
      && argvOffsets.Length == MAX_ARGS && envOffsets.Length == MAX_ENVS && data.Length == MAX_BYTES
      && argvOffsets != envOffsets && bytesUsed <= MAX_BYTES
    }

    constructor ()
      ensures Valid() && argc == envc == bytesUsed == 0
      ensures fresh(argvOffsets) && fresh(envOffsets) && fresh(data)
    {
      argc, envc, bytesUsed := 0, 0, 0;
      argvOffsets, envOffsets, data := new nat[MAX_ARGS], new nat[MAX_ENVS], new byte[MAX_BYTES];
    }

    /** The inner loop of exec_copy_vector. */
    method CopyString(u: Memory, p: nat) returns (status: Status)
      requires Valid()
      modifies this`bytesUsed, data
      ensures Valid() && bytesUsed >= old(bytesUsed)
      ensures data[..old(bytesUsed)] == old(data[..bytesUsed])
      ensures match ReadString(u, p, [], MAX_BYTES - old(bytesUsed))
              case Done(s) => status == Success && bytesUsed == old(bytesUsed) + |s| + 1 &&
                              Stored(data[..], old(bytesUsed), s)
              case Fail(e) => status == e
    {
      var start := bytesUsed;
      ghost var done: seq<byte> := [];
      var length := 0;
      while length < MAX_STRING
        invariant length <= MAX_STRING && bytesUsed == start + length <= MAX_BYTES
        invariant |done| == length && forall j :: 0 <= j < length ==> done[j] == data[start + j] && done[j] != 0
        invariant data[..start] == old(data[..start])
        invariant ReadString(u, p, [], MAX_BYTES - start) == ReadString(u, p, done, MAX_BYTES - start)
      {
        if bytesUsed >= MAX_BYTES {
          return TooBig;
        }
        if Plus(p, length) !in u {
          return Fault;
        }
        var value := u[Plus(p, length)];
        data[bytesUsed] := value;
        bytesUsed := bytesUsed + 1;
        if value == 0 {
          assert Stored(data[..], start, done);
          return Success;
        }
        done := done + [value];
        length := length + 1;
      }
      return TooBig;
    }

    /** The outer loop of exec_copy_vector, for a vector that is not null. */
    method CopyStrings(u: Memory, v: nat, offsets: array<nat>, limit: nat) returns (status: Status, count: nat, ghost strs: seq<seq<byte>>)
      requires Valid() && offsets.Length == limit
      modifies this`bytesUsed, data, offsets
      ensures Valid() && bytesUsed >= old(bytesUsed)
      ensures data[..old(bytesUsed)] == old(data[..bytesUsed])
      ensures match ReadVector(u, v, [], limit, MAX_BYTES - old(bytesUsed))
              case Done(r) => status == Success && r == strs && count == |strs| <= limit &&
                              bytesUsed == old(bytesUsed) + Size(strs) &&
                              Held(data[..], offsets[..], strs, bytesUsed)
              case Fail(e) => status == e && count == 0
    {
      hide Stored, ReadString, WordReadable, WordAt;
      count := 0;
      strs := [];
      ghost var start := bytesUsed;
      var index := 0;
      while true
        invariant Valid() && |strs| == index <= limit
        invariant bytesUsed == start + Size(strs) && data[..start] == old(data[..start])
        invariant Held(data[..], offsets[..], strs, bytesUsed)
        invariant ReadVector(u, v, [], limit, MAX_BYTES - start) == ReadVector(u, v, strs, limit, MAX_BYTES - start)
        decreases limit - index
      {
        var slot := Slot(v, index);
        if !WordReadable(u, slot) {
          return Fault, 0, strs;
        }
        var p := WordAt(u, slot);
        if p == 0 {
          return Success, index, strs;
        }
        if index == limit {
          return TooBig, 0, strs;
        }
        strs, status := CopyOne(u, p, offsets, index, strs);
        if status != Success {
          return status, 0, strs;
        }
        index := index + 1;
      }
    }

    /** One round of the outer loop. */
    method CopyOne(u: Memory, p: nat, offsets: array<nat>, index: nat, ghost strs: seq<seq<byte>>)
      returns (ghost strs2: seq<seq<byte>>, status: Status)
      requires Valid() && index < offsets.Length && |strs| == index && Held(data[..], offsets[..], strs, bytesUsed)
      modifies this`bytesUsed, data, offsets
      ensures Valid() && bytesUsed >= old(bytesUsed)
      ensures data[..old(bytesUsed)] == old(data[..bytesUsed])
      ensures match ReadString(u, p, [], MAX_BYTES - old(bytesUsed))
              case Done(s) => status == Success && strs2 == strs + [s] && bytesUsed == old(bytesUsed) + |s| + 1 &&
                              Held(data[..], offsets[..], strs2, bytesUsed)
              case Fail(e) => status == e
    {
      hide Stored;
      offsets[index] := bytesUsed;
      status := CopyString(u, p);
      strs2 := strs;
      if status == Success {
        strs2 := strs + [ReadString(u, p, [], MAX_BYTES - old(bytesUsed)).value];
        assert offsets[..][..|strs|] == old(offsets[..])[..|strs|];
        HeldKept(old(data[..]), data[..], old(offsets[..]), offsets[..], strs, old(bytesUsed), bytesUsed);
      }
    }

    /** exec_copy_vector, with the table and the limit of one of the two vectors. */
    method CopyInto(u: Memory, v: nat, offsets: array<nat>, limit: nat) returns (status: Status, count: nat, ghost strs: seq<seq<byte>>)
      requires Valid() && offsets.Length == limit
      modifies this`bytesUsed, data, offsets
      ensures Valid() && bytesUsed >= old(bytesUsed)
      ensures data[..old(bytesUsed)] == old(data[..bytesUsed])
      ensures status == Success ==>
        && Accepted(u, v, strs, limit, MAX_BYTES - old(bytesUsed))
        && bytesUsed == old(bytesUsed) + Size(strs) && count == |strs|
        && Held(data[..], offsets[..], strs, bytesUsed)
      ensures status != Success ==> count == 0 && Refused(u, v, limit, MAX_BYTES - old(bytesUsed))
    {
      hide Held, StringAt, ReadVector, Short, VectorAt, Size;
      if v == 0 {
        EmptyVector(u, data[..], offsets[..], bytesUsed);
        return Success, 0, [];
      }
      ghost var room := MAX_BYTES - bytesUsed;
      AcceptedIff(u, v, limit, room);
      status, count, strs := CopyStrings(u, v, offsets, limit);
    }

    /** exec_copy_vector */
    method CopyVector(u: Memory, v: nat, environment: bool) returns (status: Status, ghost strs: seq<seq<byte>>)
      requires Valid()
      modifies this, data, if environment then envOffsets else argvOffsets
      ensures Valid() && bytesUsed >= old(bytesUsed)
      ensures data[..old(bytesUsed)] == old(data[..bytesUsed])
      ensures if environment then argc == old(argc) else envc == old(envc)
      ensures status == Success ==>
        && Accepted(u, v, strs, if environment then MAX_ENVS else MAX_ARGS, MAX_BYTES - old(bytesUsed))
        && bytesUsed == old(bytesUsed) + Size(strs)
        && (if environment then envc else argc) == |strs|
        && Held(data[..], if environment then envOffsets[..] else argvOffsets[..], strs, bytesUsed)
      ensures status != Success ==>
        Refused(u, v, if environment then MAX_ENVS else MAX_ARGS, MAX_BYTES - old(bytesUsed))
    {
      hide Held, Accepted, Refused, Size;
      if environment {
        envc := 0;
        status, envc, strs := CopyInto(u, v, envOffsets, MAX_ENVS);
      } else {
        argc := 0;
        status, argc, strs := CopyInto(u, v, argvOffsets, MAX_ARGS);
      }
    }

    /** strlen of a string of the buffer. */
    method Length(off: nat, ghost s: seq<byte>) returns (n: nat)
      requires Valid() && Stored(data[..], off, s)
      ensures n == |s|
    {
      n := 0;
      while data[off + n] != 0
        invariant n <= |s| && (n < |s| ==> s[n] == data[off + n] && s[n] != 0)
        decreases |s| - n
      {
        n := n + 1;
      }
    }

    /** memcpy of a string with its terminator to an offset of the page. */
    method CopyOut(page: array<byte>, at: nat, off: nat, ghost s: seq<byte>)
      requires Valid() && Stored(data[..], off, s) && at + |s| < page.Length && page != data
      modifies page
      ensures Stored(page[..], at, s)
      ensures page[..at] == old(page[..at]) && page[at + |s| + 1..] == old(page[at + |s| + 1..])
    {
      var length := Length(off, s);
      for j := 0 to length + 1
        invariant page[at..at + j] == data[off..off + j]
        invariant page[..at] == old(page[..at]) && page[at + |s| + 1..] == old(page[at + |s| + 1..])
      {
        page[at + j] := data[off + j];
      }
      StoredCopy(data[..], off, page[..], at, s);
    }

    /** Either of the loops that copy the strings to the stack, the last one first. */
    method PushStrings(page: array<byte>, offsets: array<nat>, count: nat, top: nat, ghost strs: seq<seq<byte>>)
      returns (ok: bool, sp: nat, ptrs: seq<nat>)
      requires Valid() && page.Length == PAGE && page != data && STACK_BASE <= top <= STACK_TOP
      requires count == |strs| && Held(data[..], offsets[..], strs, bytesUsed)
      modifies page
      ensures ok <==> Size(strs) <= top - STACK_BASE
      ensures ok ==> STACK_BASE <= sp == top - Size(strs) && Placed(page[..], ptrs, strs, sp, top)
      ensures page[top - STACK_BASE..] == old(page[top - STACK_BASE..])
    {
      hide Stored, Size, Placed;
      sp, ptrs := top, [];
      var i := count;
      SizeNone(strs);
      PlacedNone(page[..], top);
      assert strs[i..] == [];
      while i > 0
        invariant 0 <= i <= count && STACK_BASE <= sp == top - Size(strs[i..])
        invariant Placed(page[..], ptrs, strs[i..], sp, top)
        invariant page[top - STACK_BASE..] == old(page[top - STACK_BASE..])
      {
        i := i - 1;
        SizeSuffix(strs, i);
        ok, sp, ptrs := PushOne(page, offsets[i], sp, ptrs, top, strs[i], strs[i + 1..]);
        assert strs[i..] == [strs[i]] + strs[i + 1..];
        if !ok {
          return;
        }
      }
      assert strs[0..] == strs;
      ok := true;
    }

    method PushOne(page: array<byte>, off: nat, sp: nat, ptrs: seq<nat>, ghost top: nat, ghost s: seq<byte>, ghost rest: seq<seq<byte>>)
      returns (ok: bool, sp2: nat, ptrs2: seq<nat>)
      requires Valid() && page.Length == PAGE && page != data && STACK_BASE <= sp <= top <= STACK_TOP
      requires Stored(data[..], off, s) && Placed(page[..], ptrs, rest, sp, top)
      modifies page
      ensures ok <==> |s| + 1 <= sp - STACK_BASE
      ensures ok ==> sp2 == sp - |s| - 1 && Placed(page[..], ptrs2, [s] + rest, sp2, top)
      ensures page[top - STACK_BASE..] == old(page[top - STACK_BASE..])
    {
      hide Stored;
      var length := Length(off, s);
      length := length + 1;
      if length > sp - STACK_BASE {
        return false, sp, ptrs;
      }
      sp2 := sp - length;
      CopyOut(page, sp2 - STACK_BASE, off, s);
      ptrs2 := [sp2] + ptrs;
      TailKept(old(page[..]), page[..], sp - STACK_BASE, top - STACK_BASE);
      PlacedMore(old(page[..]), page[..], ptrs, s, rest, sp, top);
      return true, sp2, ptrs2;
    }

    /** Storing words one after the other, as the table is written. */
    method PutWords(page: array<byte>, at: nat, words: seq<nat>)
      requires at + 4 * |words| <= page.Length && forall i :: 0 <= i < |words| ==> words[i] < WORD
      modifies page
      ensures HasWords(page[..], at, words)
      ensures page[at + 4 * |words|..] == old(page[at + 4 * |words|..])
    {
      var end := at + 4 * |words|;
      HasNone(page[..], at, words);
      for i := 0 to |words|
        invariant HasWords(page[..], at, words[..i])
        invariant page[end..] == old(page[end..])
      {
        ghost var before := page[..];
        PutWord(page, at + 4 * i, words[i]);
        HasMore(before, page[..], at, words, i);
        TailKept(before, page[..], at + 4 * i + 4, end);
      }
      assert words[..|words|] == words;
    }

    method PutWord(page: array<byte>, at: nat, w: nat)
      requires at + 4 <= page.Length && w < WORD
      modifies page
      ensures HasWord(page[..], at, w)
      ensures page[..at] == old(page[..at]) && page[at + 4..] == old(page[at + 4..])
    {
      hide ByteOf, Value;
      page[at] := ByteOf(w, 0);
      page[at + 1] := ByteOf(w, 1);
      page[at + 2] := ByteOf(w, 2);
      page[at + 3] := ByteOf(w, 3);
      ValueOfBytes(w);
    }

    /** exec_build_user_stack; `page` is the page below the top of the stack. */
    method BuildUserStack(page: array<byte>, writable: bool, ghost argv: seq<seq<byte>>, ghost envs: seq<seq<byte>>)
      returns (ok: bool, sp: nat)
      requires Valid() && page.Length == PAGE && page != data
      requires argc == |argv| <= MAX_ARGS && Held(data[..], argvOffsets[..], argv, bytesUsed)
      requires envc == |envs| <= MAX_ENVS && Held(data[..], envOffsets[..], envs, bytesUsed)
      requires Size(argv) + Size(envs) <= MAX_BYTES
      modifies page
      ensures ok <==> writable
      ensures !ok ==> page[..] == old(page[..])
      ensures ok ==> StackImage(page[..], sp, argv, envs)
    {
      hide Held, Size, Placed, HasWords;
      sp := STACK_TOP;
      if !writable {
        return false, sp;
      }
      for i := 0 to page.Length {
        page[i] := 0;
      }
      var envPtrs, argPtrs;
      ok, sp, envPtrs := PushStrings(page, envOffsets, envc, sp, envs);
      if !ok {
        return;
      }
      ghost var mid, pg := sp, page[..];
      ok, sp, argPtrs := PushStrings(page, argvOffsets, argc, sp, argv);
      if !ok {
        return;
      }
      TailKept(pg, page[..], mid - STACK_BASE, PAGE);
      PlacedKept(pg, page[..], envPtrs, envs, mid, STACK_TOP);
      ok, sp := BuildTable(page, sp, argPtrs, envPtrs, argv, envs, mid);
    }

    /** The pointer table below the strings. */
    method BuildTable(page: array<byte>, sp: nat, argPtrs: seq<nat>, envPtrs: seq<nat>,
                      ghost argv: seq<seq<byte>>, ghost envs: seq<seq<byte>>, ghost mid: nat)
      returns (ok: bool, tableSp: nat)
      requires Valid() && page.Length == PAGE && argc == |argv| <= MAX_ARGS && envc == |envs| <= MAX_ENVS
      requires STACK_BASE <= sp <= mid <= STACK_TOP && sp - STACK_BASE >= PAGE - MAX_BYTES
      requires Placed(page[..], argPtrs, argv, sp, mid) && Placed(page[..], envPtrs, envs, mid, STACK_TOP)
      modifies page
      ensures ok && StackImage(page[..], tableSp, argv, envs)
    {
      hide Stored, AlignDown;
      PointersInRange(page[..], argPtrs, argv, sp, mid);
      PointersInRange(page[..], envPtrs, envs, mid, STACK_TOP);
      hide Placed, HasWords;
      var tableBytes := 4 * (1 + argc + 1 + envc + 1);
      if tableBytes > sp - STACK_BASE {
        return false, sp;
      }
      tableSp := AlignDown(sp - tableBytes);
      if tableSp < STACK_BASE {
        return false, sp;
      }
      ghost var pg := page[..];
      TableInRange(argPtrs, envPtrs);
      PutWords(page, tableSp - STACK_BASE, Table(argPtrs, envPtrs));
      TailKept(pg, page[..], tableSp - STACK_BASE + tableBytes, sp - STACK_BASE);
      TailKept(pg, page[..], sp - STACK_BASE, mid - STACK_BASE);
      TailKept(pg, page[..], mid - STACK_BASE, PAGE);
      PlacedKept(pg, page[..], argPtrs, argv, sp, mid);
      PlacedKept(pg, page[..], envPtrs, envs, mid, STACK_TOP);
      ok := true;
    }
  }

  /** The bytes of a word, the lowest first. */
  function ByteOf(w: nat, i: nat): byte {
    (if i == 0 then w else if i == 1 then w / 0x100 else if i == 2 then w / 0x1_0000 else w / 0x100_0000) % 0x100
  }

  lemma ValueOfBytes(w: nat)
    requires w < WORD
    ensures Value(ByteOf(w, 0), ByteOf(w, 1), ByteOf(w, 2), ByteOf(w, 3)) == w
  {
    var q := w / 0x100;
    assert w == 0x100 * q + w % 0x100 && w / 0x1_0000 == q / 0x100;
    var q2 := q / 0x100;
    assert q == 0x100 * q2 + q % 0x100 && w / 0x100_0000 == q2 / 0x100;
  }

  function AlignDown(a: nat): (r: nat)
    ensures r % 16 == 0 && r <= a < r + 16
  {
    a / 16 * 16
  }

  /** The table: the argument count, the argument pointers, NULL, the environment pointers, NULL. */
  function Table(argPtrs: seq<nat>, envPtrs: seq<nat>): seq<nat> {
    [|argPtrs|] + argPtrs + [0] + envPtrs + [0]
  }

  lemma TableInRange(argPtrs: seq<nat>, envPtrs: seq<nat>)
    requires |argPtrs| <= MAX_ARGS && (forall i :: 0 <= i < |argPtrs| ==> argPtrs[i] < WORD)
    requires forall i :: 0 <= i < |envPtrs| ==> envPtrs[i] < WORD
    ensures |Table(argPtrs, envPtrs)| == |argPtrs| + |envPtrs| + 3
    ensures forall i :: 0 <= i < |Table(argPtrs, envPtrs)| ==> Table(argPtrs, envPtrs)[i] < WORD
  {
  }

  lemma PointersInRange(pg: seq<byte>, ptrs: seq<nat>, strs: seq<seq<byte>>, lo: nat, hi: nat)
    requires Placed(pg, ptrs, strs, lo, hi)
    ensures |ptrs| == |strs| && forall i :: 0 <= i < |ptrs| ==> ptrs[i] < WORD
  {
  }

  ghost predicate HasWord(pg: seq<byte>, at: nat, w: nat) {
    at + 4 <= |pg| && Value(pg[at], pg[at + 1], pg[at + 2], pg[at + 3]) == w
  }

  ghost predicate HasWords(pg: seq<byte>, at: nat, words: seq<nat>) {
    forall i :: 0 <= i < |words| ==> HasWord(pg, at + 4 * i, words[i])
  }

  lemma HasNone(pg: seq<byte>, at: nat, words: seq<nat>)
    ensures HasWords(pg, at, words[..0])
  {
  }

  lemma HasMore(pg: seq<byte>, pg2: seq<byte>, at: nat, words: seq<nat>, i: nat)
    requires i < |words| && HasWords(pg, at, words[..i]) && HasWord(pg2, at + 4 * i, words[i])
    requires |pg| == |pg2| && at + 4 * i <= |pg| && pg2[..at + 4 * i] == pg[..at + 4 * i]
    ensures HasWords(pg2, at, words[..i + 1])
  {
    forall j | 0 <= j < i
      ensures HasWord(pg2, at + 4 * j, words[j])
    {
      assert HasWord(pg, at + 4 * j, words[..i][j]);
      var a, b := pg[..at + 4 * i], pg2[..at + 4 * i];
      assert forall k :: 0 <= k < at + 4 * i ==> a[k] == pg[k] && b[k] == pg2[k];
    }
  }

  /** The stack page holds a 16-byte aligned pointer table and above it, apart from it and from
      each other, the strings that its pointers name. */
  ghost predicate StackImage(pg: seq<byte>, sp: nat, argv: seq<seq<byte>>, envs: seq<seq<byte>>) {
    && sp % 16 == 0 && STACK_BASE <= sp
    && exists argPtrs, envPtrs, lo: nat, mid: nat ::
         && Placed(pg, argPtrs, argv, lo, mid) && Placed(pg, envPtrs, envs, mid, STACK_TOP)
         && sp + 4 * |Table(argPtrs, envPtrs)| <= lo <= mid
         && HasWords(pg, sp - STACK_BASE, Table(argPtrs, envPtrs))
  }

  lemma TailKept(pg: seq<byte>, pg2: seq<byte>, lo: nat, hi: nat)
    requires lo <= hi <= |pg| && |pg| == |pg2| && pg2[lo..] == pg[lo..]
    ensures pg2[hi..] == pg[hi..] && pg2[lo..hi] == pg[lo..hi]
  {
    assert pg[hi..] == pg[lo..][hi - lo..] && pg2[hi..] == pg2[lo..][hi - lo..];
    assert pg[lo..hi] == pg[lo..][..hi - lo] && pg2[lo..hi] == pg2[lo..][..hi - lo];
  }

  /** The strings lie in order, apart from each other, between two addresses of the page. */
  ghost predicate Placed(pg: seq<byte>, ptrs: seq<nat>, strs: seq<seq<byte>>, lo: nat, hi: nat) {
    && |ptrs| == |strs| && STACK_BASE <= lo && hi <= STACK_TOP
    && (forall j :: 0 <= j < |ptrs| ==>
          lo <= ptrs[j] && ptrs[j] + |strs[j]| < hi && Stored(pg, ptrs[j] - STACK_BASE, strs[j]))
    && (forall i, j :: 0 <= i < j < |ptrs| ==> ptrs[i] + |strs[i]| < ptrs[j])
  }

  lemma PlacedNone(pg: seq<byte>, top: nat)
    requires STACK_BASE <= top <= STACK_TOP
    ensures Placed(pg, [], [], top, top)
  {
  }

  lemma StoredCopy(d: seq<byte>, off: nat, pg: seq<byte>, at: nat, s: seq<byte>)
    requires Stored(d, off, s) && at + |s| < |pg| && pg[at..at + |s| + 1] == d[off..off + |s| + 1]
    ensures Stored(pg, at, s)
  {
    var a, b := pg[at..at + |s| + 1], d[off..off + |s| + 1];
    assert pg[at + |s|] == a[|s|] && d[off + |s|] == b[|s|];
    forall j | 0 <= j < |s|
      ensures s[j] == pg[at + j]
    {
      assert a[j] == b[j];
    }
  }

  lemma StoredKept(pg: seq<byte>, pg2: seq<byte>, lo: nat, hi: nat, at: nat, s: seq<byte>)
    requires lo <= at && at + |s| < hi <= |pg| && |pg| == |pg2| && pg2[lo..hi] == pg[lo..hi] && Stored(pg, at, s)
    ensures Stored(pg2, at, s)
  {
    assert forall k :: lo <= k < hi ==> pg2[k] == pg2[lo..hi][k - lo] && pg[k] == pg[lo..hi][k - lo];
  }

  lemma PlacedKept(pg: seq<byte>, pg2: seq<byte>, ptrs: seq<nat>, strs: seq<seq<byte>>, lo: nat, hi: nat)
    requires Placed(pg, ptrs, strs, lo, hi) && lo <= hi && |pg| == |pg2| == PAGE
    requires pg2[lo - STACK_BASE..hi - STACK_BASE] == pg[lo - STACK_BASE..hi - STACK_BASE]
    ensures Placed(pg2, ptrs, strs, lo, hi)
  {
    hide Stored;
    forall j | 0 <= j < |ptrs|
      ensures Stored(pg2, ptrs[j] - STACK_BASE, strs[j])
    {
      StoredKept(pg, pg2, lo - STACK_BASE, hi - STACK_BASE, ptrs[j] - STACK_BASE, strs[j]);
    }
  }

  lemma PlacedMore(pg: seq<byte>, pg2: seq<byte>, ptrs: seq<nat>, s: seq<byte>, rest: seq<seq<byte>>, lo: nat, hi: nat)
    requires Placed(pg, ptrs, rest, lo, hi) && lo <= hi && |pg| == |pg2| == PAGE && lo - |s| - 1 >= STACK_BASE
    requires pg2[lo - STACK_BASE..hi - STACK_BASE] == pg[lo - STACK_BASE..hi - STACK_BASE]
    requires Stored(pg2, lo - |s| - 1 - STACK_BASE, s)
    ensures Placed(pg2, [lo - |s| - 1] + ptrs, [s] + rest, lo - |s| - 1, hi)
  {
    hide Stored;
    PlacedKept(pg, pg2, ptrs, rest, lo, hi);
  }

  lemma SizeNone(strs: seq<seq<byte>>)
    ensures Size(strs[|strs|..]) == 0
  {
  }

  lemma {:induction false} SizeConcat(a: seq<seq<byte>>, b: seq<seq<byte>>)
    ensures Size(a + b) == Size(a) + Size(b)
    decreases |b|
  {
    if b == [] {
      assert a + b == a;
    } else {
      SizeConcat(a, b[..|b| - 1]);
      assert (a + b)[..|a + b| - 1] == a + b[..|b| - 1];
    }
  }

  lemma SizeSuffix(strs: seq<seq<byte>>, i: nat)
    requires i < |strs|
    ensures Size(strs[i..]) == |strs[i]| + 1 + Size(strs[i + 1..]) <= Size(strs)
  {
    SizeConcat([strs[i]], strs[i + 1..]);
    assert strs[i..] == [strs[i]] + strs[i + 1..];
    SizeConcat(strs[..i], strs[i..]);
    assert strs == strs[..i] + strs[i..];
    assert Size([strs[i]]) == Size([strs[i]][..0]) + |strs[i]| + 1;
  }

  /** The vector argument denotes these strings, and they are within the limits. */
  ghost predicate Accepted(u: Memory, v: nat, strs: seq<seq<byte>>, limit: nat, room: nat) {
    Vector(u, v, strs) && Fits(strs, limit, room)
  }

  ghost predicate Refused(u: Memory, v: nat, limit: nat, room: nat) {
    forall strs :: !Accepted(u, v, strs, limit, room)
  }

  lemma EmptyVector(u: Memory, d: seq<byte>, offsets: seq<nat>, used: nat)
    ensures Vector(u, 0, []) && Held(d, offsets, [], used) && Short([]) && Size([]) == 0
  {
  }

  /** The copy succeeds exactly for a vector that is there and within the limits, and then
      yields that vector. */
  lemma AcceptedIff(u: Memory, v: nat, limit: nat, room: nat)
    ensures forall strs :: ReadVector(u, v, [], limit, room) == Done(strs) <==> VectorAt(u, v, strs) && Fits(strs, limit, room)
  {
    forall strs
      ensures ReadVector(u, v, [], limit, room) == Done(strs) <==> VectorAt(u, v, strs) && Fits(strs, limit, room)
    {
      ReadVectorIff(u, v, [], limit, room, strs);
    }
  }

  // ---------- the new process reads its arguments ----------

  /** An address space in which the stack page is mapped. */
  ghost predicate Shows(u: Memory, pg: seq<byte>) {
    |pg| == PAGE && forall a :: STACK_BASE <= a < STACK_TOP ==> a in u && u[a] == pg[a - STACK_BASE]
  }

  lemma ShowsString(u: Memory, pg: seq<byte>, p: nat, s: seq<byte>)
    requires Shows(u, pg) && STACK_BASE <= p && p + |s| < STACK_TOP && Stored(pg, p - STACK_BASE, s)
    ensures StringAt(u, p, s)
  {
    forall j | 0 <= j <= |s|
      ensures Plus(p, j) in u && u[Plus(p, j)] == pg[p - STACK_BASE + j]
    {
      assert Plus(p, j) == p + j;
    }
  }

  lemma ShowsWord(u: Memory, pg: seq<byte>, a: nat, w: nat)
    requires Shows(u, pg) && STACK_BASE <= a && a + 4 <= STACK_TOP && HasWord(pg, a - STACK_BASE, w)
    ensures WordReadable(u, a) && WordAt(u, a) == w
  {
  }

  /** A stretch of the table is a vector of the strings its pointers name. */
  lemma ShowsVector(u: Memory, pg: seq<byte>, v: nat, ptrs: seq<nat>, strs: seq<seq<byte>>, lo: nat, hi: nat)
    requires Shows(u, pg) && Placed(pg, ptrs, strs, lo, hi)
    requires STACK_BASE <= v && v + 4 * (|ptrs| + 1) <= STACK_TOP && HasWords(pg, v - STACK_BASE, ptrs + [0])
    ensures VectorAt(u, v, strs)
  {
    hide Stored, StringAt, WordReadable, WordAt, HasWord, Shows;
    var words := ptrs + [0];
    forall i | 0 <= i <= |strs|
      ensures WordReadable(u, Slot(v, i)) && WordAt(u, Slot(v, i)) == words[i]
    {
      assert Slot(v, i) == v + 4 * i;
      assert HasWord(pg, v - STACK_BASE + 4 * i, words[i]);
      ShowsWord(u, pg, v + 4 * i, words[i]);
    }
    forall i | 0 <= i < |strs|
      ensures StringAt(u, WordAt(u, Slot(v, i)), strs[i])
    {
      ShowsString(u, pg, ptrs[i], strs[i]);
    }
  }

  lemma HasPart(pg: seq<byte>, at: nat, words: seq<nat>, from: nat, to: nat)
    requires HasWords(pg, at, words) && from <= to <= |words|
    ensures HasWords(pg, at + 4 * from, words[from..to])
  {
    forall i | 0 <= i < to - from
      ensures HasWord(pg, at + 4 * from + 4 * i, words[from..to][i])
    {
      assert HasWord(pg, at + 4 * (from + i), words[from + i]);
    }
  }

  lemma TableParts(argPtrs: seq<nat>, envPtrs: seq<nat>)
    ensures var t, n := Table(argPtrs, envPtrs), |argPtrs|;
      && |t| == n + |envPtrs| + 3 && t[0] == n
      && t[1..n + 2] == argPtrs + [0] && t[n + 2..|t|] == envPtrs + [0]
  {
  }

  lemma PlacedCount(pg: seq<byte>, ptrs: seq<nat>, strs: seq<seq<byte>>, lo: nat, hi: nat)
    requires Placed(pg, ptrs, strs, lo, hi)
    ensures |ptrs| == |strs| && hi <= STACK_TOP
  {
  }

  /** In every address space that maps the page, the stack pointer leads to the argument count,
      the argument vector and the environment vector. */
  lemma StackDecodes(u: Memory, pg: seq<byte>, sp: nat, argv: seq<seq<byte>>, envs: seq<seq<byte>>)
    requires Shows(u, pg) && StackImage(pg, sp, argv, envs)
    ensures WordReadable(u, sp) && WordAt(u, sp) == |argv|
    ensures Vector(u, sp + 4, argv) && Vector(u, sp + 4 * (|argv| + 2), envs)
  {
    var argPtrs, envPtrs, lo: nat, mid: nat :|
      && Placed(pg, argPtrs, argv, lo, mid) && Placed(pg, envPtrs, envs, mid, STACK_TOP)
      && sp + 4 * |Table(argPtrs, envPtrs)| <= lo <= mid
      && HasWords(pg, sp - STACK_BASE, Table(argPtrs, envPtrs));
    var t, n := Table(argPtrs, envPtrs), |argPtrs|;
    TableParts(argPtrs, envPtrs);
    hide VectorAt, WordReadable, WordAt, HasWord, Shows, Placed, Table;
    assert HasWord(pg, sp - STACK_BASE + 4 * 0, t[0]);
    ShowsWord(u, pg, sp, n);
    HasPart(pg, sp - STACK_BASE, t, 1, n + 2);
    HasPart(pg, sp - STACK_BASE, t, n + 2, |t|);
    hide HasWords;
    PlacedCount(pg, argPtrs, argv, lo, mid);
    PlacedCount(pg, envPtrs, envs, mid, STACK_TOP);
    ShowsVector(u, pg, sp + 4, argPtrs, argv, lo, mid);
    ShowsVector(u, pg, sp + 4 * (n + 2), envPtrs, envs, mid, STACK_TOP);
  }

  /** The part of exec from the user's vectors to the new stack: it goes through exactly when
      both vectors are there and within the limits and the page is writable, and the new
      process then finds the strings the old one passed. */
  method PassArguments(u: Memory, argvPtr: nat, envPtr: nat, page: array<byte>, writable: bool)
    returns (status: Status, ok: bool, sp: nat, ghost argv: seq<seq<byte>>, ghost envs: seq<seq<byte>>)
    requires page.Length == PAGE
    modifies page
    ensures status == Success ==>
      && Accepted(u, argvPtr, argv, MAX_ARGS, MAX_BYTES) && Accepted(u, envPtr, envs, MAX_ENVS, MAX_BYTES - Size(argv))
      && (ok <==> writable)
    ensures status != Success ==>
      Refused(u, argvPtr, MAX_ARGS, MAX_BYTES) ||
      (Accepted(u, argvPtr, argv, MAX_ARGS, MAX_BYTES) && Refused(u, envPtr, MAX_ENVS, MAX_BYTES - Size(argv)))
    ensures status != Success || !ok ==> page[..] == old(page[..])
    ensures status == Success && ok ==>
      forall u2 :: Shows(u2, page[..]) ==>
        && WordReadable(u2, sp) && WordAt(u2, sp) == |argv|
        && Vector(u2, sp + 4, argv) && Vector(u2, sp + 4 * (|argv| + 2), envs)
  {
    hide Held, Size, Vector, Short, Shows, StackImage, WordReadable, WordAt, Refused;
    ok, sp, envs := false, 0, [];
    var vectors := new Vectors();
    status, argv := vectors.CopyVector(u, argvPtr, false);
    if status != Success {
      return;
    }
    ghost var d, used := vectors.data[..], vectors.bytesUsed;
    status, envs := vectors.CopyVector(u, envPtr, true);
    if status != Success {
      return;
    }
    HeldKept(d, vectors.data[..], vectors.argvOffsets[..], vectors.argvOffsets[..], argv, used, vectors.bytesUsed);
    ok, sp := vectors.BuildUserStack(page, writable, argv, envs);
    if ok {
      forall u2 | Shows(u2, page[..])
        ensures WordReadable(u2, sp) && WordAt(u2, sp) == |argv|
        ensures Vector(u2, sp + 4, argv) && Vector(u2, sp + 4 * (|argv| + 2), envs)
      {
        StackDecodes(u2, page[..], sp, argv, envs);
      }
    }
  }
}
