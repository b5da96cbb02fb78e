/** kernel/pipe.c: a pipe is a ring buffer with counts of its open ends. */
module Pipes {

  const CAPACITY: nat := 4096
  const PIPE_BUF: nat := 512
  const COUNT_MAX: nat := 0xFFFF_FFFF

  type byte = x: int | 0 <= x < 256

  datatype Result = Moved(n: nat) | WouldBlock | Broken | BadHandle

  // ---------- a pipe as a bounded queue ----------

  datatype Value = Value(used: bool, content: seq<byte>, readers: nat, writers: nat)

  const Unused: Value := Value(false, [], 0, 0)

  ghost predicate ValueOk(v: Value) {
    && |v.content| <= CAPACITY
    && (v.used <==> v.readers > 0 || v.writers > 0)
    && (!v.used ==> v == Unused)
  }

  function Min(a: nat, b: nat): nat { if a < b then a else b }

  /** How a read of `count` bytes ends. */
  function ReadResult(v: Value, count: nat): Result {
    if count == 0 then Moved(0)
    else if v.content == [] then (if v.writers == 0 then Moved(0) else WouldBlock)
    else Moved(Min(count, |v.content|))
  }

  /** How a write of `count` bytes ends. */
  function WriteResult(v: Value, count: nat): Result
    requires |v.content| <= CAPACITY
  {
    var space := CAPACITY - |v.content|;
    if count == 0 then Moved(0)
    else if v.readers == 0 then Broken
    else if space == 0 || (count <= PIPE_BUF && space < count) then WouldBlock
    else Moved(Min(count, space))
  }

  /** A read ends with 0 bytes exactly at the end of the file, when the pipe is empty and nobody can
      write to it any more; it waits exactly for writers that are left; otherwise it gets what there
      is, up to the bytes asked for. */
  lemma ReadMeans(v: Value, count: nat)
    requires count > 0
    ensures ReadResult(v, count) == Moved(0) <==> v.content == [] && v.writers == 0
    ensures ReadResult(v, count) == WouldBlock <==> v.content == [] && v.writers > 0
    ensures v.content != [] ==>
      var r := ReadResult(v, count); r.Moved? && r.n <= count && r.n <= |v.content| && (r.n == count || r.n == |v.content|)
  {
  }

  /** A write fails exactly if nobody can read; otherwise one of at most 512 bytes goes in whole or
      waits for the space, and a longer one waits only for a full pipe and goes in as far as it
      fits. */
  lemma WriteMeans(v: Value, count: nat)
    requires |v.content| <= 4096 && count > 0
    ensures WriteResult(v, count) == Broken <==> v.readers == 0
    ensures v.readers > 0 && count <= 512 ==> WriteResult(v, count) == if |v.content| + count <= 4096 then Moved(count) else WouldBlock
    ensures v.readers > 0 && count > 512 ==> (WriteResult(v, count) == WouldBlock <==> |v.content| == 4096)
    ensures v.readers > 0 && count > 512 && |v.content| < 4096 ==>
      var r := WriteResult(v, count); r.Moved? && r.n <= count && |v.content| + r.n <= 4096 && (r.n == count || |v.content| + r.n == 4096)
  {
  }

  /** Closing an end leaves the other and the bytes alone, until nobody is left at either. */
  lemma CloseMeans(v: Value, reading: bool)
    requires if reading then v.readers > 0 else v.writers > 0
    ensures var w := AfterClose(v, reading);
      && w.readers == v.readers - (if reading then 1 else 0) && w.writers == v.writers - (if reading then 0 else 1)
      && (w.readers + w.writers > 0 ==> w.used == v.used && w.content == v.content)
      && (w.readers + w.writers == 0 ==> w == Value(false, [], 0, 0))
  {
  }

  function Taken(r: Result): nat { if r.Moved? then r.n else 0 }

  ghost function AfterRead(v: Value, count: nat): Value {
    v.(content := v.content[Taken(ReadResult(v, count))..])
  }

  ghost function AfterWrite(v: Value, data: seq<byte>): Value
    requires |v.content| <= CAPACITY
  {
    v.(content := v.content + data[..Taken(WriteResult(v, |data|))])
  }

  /** One end is closed; closing the last of both frees the pipe. */
  function AfterClose(v: Value, reading: bool): Value
    requires if reading then v.readers > 0 else v.writers > 0
  {
    var w := if reading then v.(readers := v.readers - 1) else v.(writers := v.writers - 1);
    if w.readers == 0 && w.writers == 0 then Unused else w
  }

  function AfterRetain(v: Value, reading: bool): Value {
    if reading then v.(readers := v.readers + 1) else v.(writers := v.writers + 1)
  }

  // ---------- what goes through the pipes ----------

  /** A pipe is made, or bytes are taken out of it or put into it. */
  datatype Move = Made(pipe: nat) | Took(pipe: nat, bytes: seq<byte>) | Gave(pipe: nat, bytes: seq<byte>)

  /** The bytes taken out of pipe i since it was made. */
  ghost function Got(moves: seq<Move>, i: nat): seq<byte> {
    if moves == [] then [] else
      var rest, m := moves[..|moves| - 1], moves[|moves| - 1];
      if m == Made(i) then [] else if m.Took? && m.pipe == i then Got(rest, i) + m.bytes else Got(rest, i)
  }

  /** The bytes put into pipe i since it was made. */
  ghost function Put(moves: seq<Move>, i: nat): seq<byte> {
    if moves == [] then [] else
      var rest, m := moves[..|moves| - 1], moves[|moves| - 1];
      if m == Made(i) then [] else if m.Gave? && m.pipe == i then Put(rest, i) + m.bytes else Put(rest, i)
  }

  /** What was taken out of a pipe is a prefix of what was put in, and the pipe holds the rest. */
  ghost predicate FlowOk(pipes: seq<Value>, moves: seq<Move>) {
    forall i :: 0 <= i < |pipes| ==>
      Got(moves, i) <= Put(moves, i) && (pipes[i].used ==> Got(moves, i) + pipes[i].content == Put(moves, i))
  }

  lemma MoveMore(moves: seq<Move>, m: Move)
    ensures forall i: nat :: Got(moves + [m], i) == (if m == Made(i) then [] else if m.Took? && m.pipe == i then Got(moves, i) + m.bytes else Got(moves, i))
    ensures forall i: nat :: Put(moves + [m], i) == (if m == Made(i) then [] else if m.Gave? && m.pipe == i then Put(moves, i) + m.bytes else Put(moves, i))
  {
    assert (moves + [m])[..|moves|] == moves;
  }

  lemma FlowMade(pipes: seq<Value>, moves: seq<Move>, i: nat)
    requires FlowOk(pipes, moves) && i < |pipes|
    ensures FlowOk(pipes[i := Value(true, [], 1, 1)], moves + [Made(i)])
  {
    MoveMore(moves, Made(i));
    hide Got, Put;
  }

  lemma FlowTook(pipes: seq<Value>, moves: seq<Move>, i: nat, n: nat)
    requires FlowOk(pipes, moves) && i < |pipes| && pipes[i].used && n <= |pipes[i].content|
    ensures FlowOk(pipes[i := pipes[i].(content := pipes[i].content[n..])], moves + [Took(i, pipes[i].content[..n])])
  {
    var got, content := Got(moves, i), pipes[i].content;
    MoveMore(moves, Took(i, content[..n]));
    hide Got, Put;
    assert got + content[..n] + content[n..] == got + content;
  }

  lemma FlowGave(pipes: seq<Value>, moves: seq<Move>, i: nat, bytes: seq<byte>)
    requires FlowOk(pipes, moves) && i < |pipes| && pipes[i].used
    ensures FlowOk(pipes[i := pipes[i].(content := pipes[i].content + bytes)], moves + [Gave(i, bytes)])
  {
    MoveMore(moves, Gave(i, bytes));
    hide Got, Put;
    assert Got(moves, i) + (pipes[i].content + bytes) == Got(moves, i) + pipes[i].content + bytes;
  }

  // ---------- the ring buffer ----------

  /** The cell that holds byte i of the queue. */
  ghost function Cell(readPos: nat, i: nat): nat {
    if readPos + i < CAPACITY then readPos + i else readPos + i - CAPACITY
  }

  function Advance(pos: nat): (r: nat)
    requires pos < CAPACITY
    ensures r == if pos + 1 == CAPACITY then 0 else pos + 1
  {
    (pos + 1) % CAPACITY
  }

  class Pipe {
    const buffer: array<byte>
    var readPos: nat
    var writePos: nat
    var count: nat
    var readers: nat
    var writers: nat
    var used: bool

    ghost predicate Valid()
      reads this
    {
      && buffer.Length == CAPACITY && readPos < CAPACITY && count <= CAPACITY
      && writePos == Cell(readPos, count)
    }

    /** The bytes in the ring, oldest first. */
    ghost function Contents(): (r: seq<byte>)
      requires Valid()
      reads this, buffer
    {
      Ring(buffer[..], readPos, count)
    }

    ghost function Abstract(): Value
      requires Valid()
      reads this, buffer
    {
      Value(used, Contents(), readers, writers)
    }

    /** A slot of the pipe table as pipe_init leaves it. */
    constructor ()
      ensures Valid() && Abstract() == Unused && fresh(buffer)
    {
      buffer := new byte[CAPACITY];
      readPos, writePos, count, readers, writers, used := 0, 0, 0, 0, 0, false;
    }

    /** The slot is claimed by pipe_create. */
    method Claim()
      requires Valid()
      modifies this
      ensures Valid() && Abstract() == Value(true, [], 1, 1)
    {
      readPos, writePos, count, readers, writers, used := 0, 0, 0, 1, 1, true;
    }

    /** pipe_read of the open end of this pipe. */
    method Read(dst: array<byte>, n: nat) returns (r: Result)
      requires Valid() && n <= dst.Length && dst != buffer
      modifies this`readPos, this`count, dst
      ensures Valid() && r == ReadResult(old(Abstract()), n) && Abstract() == AfterRead(old(Abstract()), n)
      ensures n == 0 ==> r == Moved(0)
      ensures n > 0 ==> (r == Moved(0) <==> old(Contents()) == [] && writers == 0)
      ensures n > 0 ==> (r == WouldBlock <==> old(Contents()) == [] && writers > 0)
      ensures n > 0 && old(Contents()) != [] ==> r == Moved(Min(n, |old(Contents())|))
      ensures Contents() == old(Contents())[Taken(r)..] && dst[..Taken(r)] == old(Contents())[..Taken(r)]
      ensures dst[Taken(r)..] == old(dst[Taken(r)..])
    {
      if n == 0 {
        return Moved(0);
      }
      if count == 0 {
        return if writers == 0 then Moved(0) else WouldBlock;
      }
      var copied := if n < count then n else count;
      RingDrop(buffer[..], readPos, count, copied);
      CopyOut(dst, copied);
      count := count - copied;
      return Moved(copied);
    }

    /** The byte loop of pipe_read. */
    method CopyOut(dst: array<byte>, copied: nat)
      requires Valid() && copied <= count && copied <= dst.Length && dst != buffer
      modifies this`readPos, dst
      ensures readPos == Cell(old(readPos), copied)
      ensures dst[..copied] == old(Contents())[..copied] && dst[copied..] == old(dst[copied..])
    {
      ghost var start := readPos;
      for i := 0 to copied
        invariant readPos == Cell(start, i)
        invariant dst[..i] == old(Contents())[..i] && dst[copied..] == old(dst[copied..])
      {
        dst[i] := buffer[readPos];
        readPos := Advance(readPos);
      }
    }

    /** pipe_write to the open end of this pipe. */
    method Write(src: seq<byte>) returns (r: Result)
      requires Valid()
      modifies this`writePos, this`count, buffer
      ensures Valid() && r == WriteResult(old(Abstract()), |src|) && Abstract() == AfterWrite(old(Abstract()), src)
    {
      if |src| == 0 {
        return Moved(0);
      }
      if readers == 0 {
        return Broken;
      }
      var space := CAPACITY - count;
      if space == 0 || (|src| <= PIPE_BUF && space < |src|) {
        return WouldBlock;
      }
      var copied := if |src| < space then |src| else space;
      CopyIn(src, copied);
      count := count + copied;
      return Moved(copied);
    }

    /** The byte loop of pipe_write. */
    method CopyIn(src: seq<byte>, copied: nat)
      requires Valid() && copied <= |src| && count + copied <= CAPACITY
      modifies this`writePos, buffer
      ensures writePos == Cell(readPos, count + copied)
      ensures Ring(buffer[..], readPos, count + copied) == old(Contents()) + src[..copied]
    {
      hide Ring, Advance;
      for i := 0 to copied
        invariant writePos == Cell(readPos, count + i)
        invariant Ring(buffer[..], readPos, count + i) == old(Contents()) + src[..i]
      {
        RingPut(buffer[..], readPos, count + i, src[i]);
        ghost var b := buffer[..];
        buffer[writePos] := src[i];
        assert buffer[..] == b[Cell(readPos, count + i) := src[i]];
        assert src[..i + 1] == src[..i] + [src[i]];
        writePos := Advance(writePos);
      }
    }

    /** pipe_close of one end of this pipe; `wake` says whether the other side's waiter is woken. */
    method Close(reading: bool) returns (ok: bool, wake: bool)
      requires Valid()
      modifies this
      ensures Valid() && (ok <==> if reading then old(readers) > 0 else old(writers) > 0)
      ensures Abstract() == if ok then AfterClose(old(Abstract()), reading) else old(Abstract())
      ensures wake <==> ok && (if reading then old(readers) else old(writers)) == 1
    {
      if reading {
        if readers == 0 {
          return false, false;
        }
        readers := readers - 1;
        wake := readers == 0;
      } else {
        if writers == 0 {
          return false, false;
        }
        writers := writers - 1;
        wake := writers == 0;
      }
      if readers == 0 && writers == 0 {
        readPos, writePos, count, used := 0, 0, 0, false;
      }
      ok := true;
    }

    /** pipe_retain of one end of this pipe. */
    method Retain(reading: bool) returns (ok: bool)
      requires Valid()
      modifies this`readers, this`writers
      ensures Valid()
      ensures ok <==> (if reading then old(readers) else old(writers)) != COUNT_MAX
      ensures Abstract() == if ok then AfterRetain(old(Abstract()), reading) else old(Abstract())
    {
      if (if reading then readers else writers) == COUNT_MAX {
        return false;
      }
      if reading {
        readers := readers + 1;
      } else {
        writers := writers + 1;
      }
      ok := true;
    }
  }

  ghost function Ring(buffer: seq<byte>, readPos: nat, count: nat): (r: seq<byte>)
    requires |buffer| == CAPACITY && readPos < CAPACITY && count <= CAPACITY
    ensures |r| == count && forall i :: 0 <= i < count ==> r[i] == buffer[Cell(readPos, i)]
  {
    seq(count, i requires 0 <= i < count => buffer[Cell(readPos, i)])
  }

  lemma RingDrop(buffer: seq<byte>, readPos: nat, count: nat, k: nat)
    requires |buffer| == CAPACITY && readPos < CAPACITY && k <= count <= CAPACITY
    ensures Ring(buffer, Cell(readPos, k), count - k) == Ring(buffer, readPos, count)[k..]
    ensures Cell(readPos, count) == Cell(Cell(readPos, k), count - k)
  {
  }

  lemma RingPut(buffer: seq<byte>, readPos: nat, n: nat, b: byte)
    requires |buffer| == CAPACITY && readPos < CAPACITY && n < CAPACITY
    ensures Ring(buffer[Cell(readPos, n) := b], readPos, n + 1) == Ring(buffer, readPos, n) + [b]
  {
  }

  // ---------- whole runs ----------

  datatype Op = ReadOp(count: nat) | WriteOp(data: seq<byte>) | RetainOp(reading: bool) | CloseOp(reading: bool)

  /** How a call ends: what a read or write comes to, or whether the count of an end was changed. */
  datatype Answer = Transfer(r: Result) | Counted(ok: bool)

  /** How a call on a pipe must end that holds `left` bytes and has these ends open.  A read of
      nothing and a write of nothing do nothing. */
  ghost predicate Answered(op: Op, a: Answer, left: int, readers: int, writers: int) {
    match op
    case ReadOp(n) =>
      a == Transfer(if n == 0 then Moved(0) else if left > 0 then Moved(if n < left then n else left)
                    else if writers == 0 then Moved(0) else WouldBlock)
    case WriteOp(data) =>
      if data == [] then a == Transfer(Moved(0))
      else if readers == 0 then a == Transfer(Broken)
      else if |data| <= 512 then a == Transfer(if left + |data| <= 4096 then Moved(|data|) else WouldBlock)
      else if left == 4096 then a == Transfer(WouldBlock)
      else a.Transfer? && a.r.Moved? && a.r.n == if left + |data| <= 4096 then |data| else 4096 - left
    case RetainOp(reading) => a == Counted((if reading then readers else writers) != COUNT_MAX)
    case CloseOp(reading) => a == Counted((if reading then readers else writers) > 0)
  }

  /** What a call takes out and lets in. */
  ghost predicate PieceOf(got: seq<byte>, put: seq<byte>, op: Op, a: Answer) {
    if a.Transfer? && a.r.Moved? && op.ReadOp? then |got| == a.r.n && put == []
    else if a.Transfer? && a.r.Moved? && op.WriteOp? then got == [] && a.r.n <= |op.data| && put == op.data[..a.r.n]
    else got == [] && put == []
  }

  /** What a call adds to the number of open ends of one kind. */
  ghost function Change(op: Op, a: Answer, reading: bool): int {
    if op == RetainOp(reading) && a == Counted(true) then 1 else if op == CloseOp(reading) && a == Counted(true) then -1 else 0
  }

  /** One call on an open pipe. */
  method Perform(p: Pipe, op: Op) returns (a: Answer, got: seq<byte>, put: seq<byte>)
    requires p.Valid() && p.used && ValueOk(p.Abstract())
    modifies p, p.buffer
    ensures p.Valid() && ValueOk(p.Abstract())
    ensures p.used ==> got + p.Contents() == old(p.Contents()) + put
    ensures got <= old(p.Contents()) + put
    ensures Answered(op, a, |old(p.Contents())|, old(p.readers), old(p.writers)) && PieceOf(got, put, op, a)
    ensures p.readers == old(p.readers) + Change(op, a, true) && p.writers == old(p.writers) + Change(op, a, false)
  {
    got, put := [], [];
    match op
    case ReadOp(n) =>
      var r;
      r, got := ReadSome(p, n);
      a := Transfer(r);
    case WriteOp(data) =>
      var r;
      r, put := WriteSome(p, data);
      a := Transfer(r);
    case RetainOp(reading) =>
      var ok := p.Retain(reading);
      a := Counted(ok);
    case CloseOp(reading) =>
      var ok, _ := p.Close(reading);
      a := Counted(ok);
  }

  method ReadSome(p: Pipe, n: nat) returns (r: Result, got: seq<byte>)
    requires p.Valid() && ValueOk(p.Abstract())
    modifies p`readPos, p`count
    ensures p.Valid() && ValueOk(p.Abstract()) && got + p.Contents() == old(p.Contents())
    ensures Answered(ReadOp(n), Transfer(r), |old(p.Contents())|, p.readers, p.writers) && PieceOf(got, [], ReadOp(n), Transfer(r))
  {
    hide Ring, ReadResult;
    ghost var before := p.Contents();
    var dst := new byte[n];
    r := p.Read(dst, n);
    got := dst[..Taken(r)];
    hide AfterRead;
    Rejoined(before, Taken(r));
  }

  method WriteSome(p: Pipe, data: seq<byte>) returns (r: Result, put: seq<byte>)
    requires p.Valid() && p.used && ValueOk(p.Abstract())
    modifies p`writePos, p`count, p.buffer
    ensures p.Valid() && ValueOk(p.Abstract()) && p.Contents() == old(p.Contents()) + put
    ensures Answered(WriteOp(data), Transfer(r), |old(p.Contents())|, p.readers, p.writers) && PieceOf([], put, WriteOp(data), Transfer(r))
  {
    hide Ring;
    r := p.Write(data);
    put := data[..Taken(r)];
  }

  lemma Rejoined(s: seq<byte>, k: nat)
    requires k <= |s|
    ensures s[..k] + s[k..] == s
  {
  }

  lemma Associate(got: seq<byte>, g: seq<byte>, c: seq<byte>, w: seq<byte>, c2: seq<byte>)
    requires g <= c + w
    ensures got + g <= got + c + w
    ensures g + c2 == c + w ==> got + g + c2 == got + c + w
  {
    assert got + g + c2 == got + (g + c2) && got + c + w == got + (c + w);
  }

  /** The pieces one after the other. */
  ghost function Joined(pieces: seq<seq<byte>>): seq<byte> {
    if pieces == [] then [] else Joined(pieces[..|pieces| - 1]) + pieces[|pieces| - 1]
  }

  /** The ends of one kind that are open after the first k calls on a new pipe. */
  ghost function EndsLeft(ops: seq<Op>, answers: seq<Answer>, k: nat, reading: bool): int
    requires k <= |answers| <= |ops|
  {
    if k == 0 then 1 else EndsLeft(ops, answers, k - 1, reading) + Change(ops[k - 1], answers[k - 1], reading)
  }

  /** The bytes in the pipe after the first k calls. */
  ghost function Left(got: seq<seq<byte>>, put: seq<seq<byte>>, k: nat): int
    requires k <= |got| == |put|
  {
    |Joined(put[..k])| - |Joined(got[..k])|
  }

  /** The k-th call ends as the calls before it say. */
  ghost predicate AnsweredAt(ops: seq<Op>, answers: seq<Answer>, got: seq<seq<byte>>, put: seq<seq<byte>>, k: nat)
    requires k < |answers| == |got| == |put| <= |ops|
  {
    && Answered(ops[k], answers[k], Left(got, put, k), EndsLeft(ops, answers, k, true), EndsLeft(ops, answers, k, false))
    && PieceOf(got[k], put[k], ops[k], answers[k])
  }

  lemma {:induction false} EndsKept(ops: seq<Op>, answers: seq<Answer>, a: Answer, k: nat, reading: bool)
    requires k <= |answers| < |ops|
    ensures EndsLeft(ops, answers + [a], k, reading) == EndsLeft(ops, answers, k, reading)
  {
    if k > 0 {
      EndsKept(ops, answers, a, k - 1, reading);
    }
  }

  lemma {:induction false} AnsweredKept(ops: seq<Op>, answers: seq<Answer>, got: seq<seq<byte>>, put: seq<seq<byte>>, a: Answer, g: seq<byte>, w: seq<byte>, k: nat)
    requires k < |answers| == |got| == |put| < |ops| && AnsweredAt(ops, answers, got, put, k)
    ensures AnsweredAt(ops, answers + [a], got + [g], put + [w], k)
  {
    hide Answered, PieceOf, Change, Joined, EndsLeft;
    assert (got + [g])[..k] == got[..k] && (put + [w])[..k] == put[..k];
    EndsKept(ops, answers, a, k, true);
    EndsKept(ops, answers, a, k, false);
  }

  lemma {:induction false} JoinedMore(pieces: seq<seq<byte>>, piece: seq<byte>)
    ensures (pieces + [piece])[..|pieces|] == pieces && Joined(pieces + [piece]) == Joined(pieces) + piece
  {
    assert (pieces + [piece])[..|pieces|] == pieces;
  }

  lemma {:induction false} AnsweredMore(ops: seq<Op>, answers: seq<Answer>, got: seq<seq<byte>>, put: seq<seq<byte>>, a: Answer, g: seq<byte>, w: seq<byte>)
    requires |answers| == |got| == |put| < |ops| && forall k :: 0 <= k < |answers| ==> AnsweredAt(ops, answers, got, put, k)
    requires Answered(ops[|answers|], a, |Joined(put)| - |Joined(got)|, EndsLeft(ops, answers, |answers|, true), EndsLeft(ops, answers, |answers|, false))
    requires PieceOf(g, w, ops[|answers|], a)
    ensures forall k :: 0 <= k < |answers| + 1 ==> AnsweredAt(ops, answers + [a], got + [g], put + [w], k)
    ensures EndsLeft(ops, answers + [a], |answers| + 1, true) == EndsLeft(ops, answers, |answers|, true) + Change(ops[|answers|], a, true)
    ensures EndsLeft(ops, answers + [a], |answers| + 1, false) == EndsLeft(ops, answers, |answers|, false) + Change(ops[|answers|], a, false)
    ensures Joined(got + [g]) == Joined(got) + g && Joined(put + [w]) == Joined(put) + w
  {
    hide Answered, PieceOf, Change, Joined;
    JoinedMore(got, g);
    JoinedMore(put, w);
    EndsKept(ops, answers, a, |answers|, true);
    EndsKept(ops, answers, a, |answers|, false);
    forall k | 0 <= k < |answers| + 1
      ensures AnsweredAt(ops, answers + [a], got + [g], put + [w], k)
    {
      hide EndsLeft;
      if k < |answers| {
        AnsweredKept(ops, answers, got, put, a, g, w, k);
      }
    }
  }

  /** Over any run from the creation of a pipe, the bytes read are a prefix of the bytes written, the
      ring holds exactly the rest, and the bytes written are those of the writes one after the other,
      small ones whole.  A read ends with 0 bytes exactly if all bytes written have been read and the
      last writer has closed; it waits exactly if they have been read and a writer is left. */
  method Run(p: Pipe, ops: seq<Op>) returns (answers: seq<Answer>, got: seq<seq<byte>>, put: seq<seq<byte>>)
    requires p.Valid() && p.Abstract() == Value(true, [], 1, 1)
    modifies p, p.buffer
    ensures p.Valid() && |answers| == |got| == |put| <= |ops| && (p.used ==> |answers| == |ops|)
    ensures Joined(got) <= Joined(put) && (p.used ==> Joined(got) + p.Contents() == Joined(put))
    ensures forall k :: 0 <= k < |answers| ==> AnsweredAt(ops, answers, got, put, k)
    ensures p.used <==> EndsLeft(ops, answers, |answers|, true) > 0 || EndsLeft(ops, answers, |answers|, false) > 0
  {
    answers, got, put := [], [], [];
    var i := 0;
    while i < |ops| && p.used
      invariant i <= |ops| && p.Valid() && ValueOk(p.Abstract()) && |answers| == |got| == |put| == i
      invariant Joined(got) <= Joined(put) && (p.used ==> Joined(got) + p.Contents() == Joined(put))
      invariant forall k :: 0 <= k < i ==> AnsweredAt(ops, answers, got, put, k)
      invariant p.readers == EndsLeft(ops, answers, i, true) && p.writers == EndsLeft(ops, answers, i, false)
    {
      hide Answered, PieceOf, Change, Ring, Joined, EndsLeft;
      ghost var c := p.Contents();
      var a, g, w := Perform(p, ops[i]);
      Associate(Joined(got), g, c, w, if p.used then p.Contents() else []);
      AnsweredMore(ops, answers, got, put, a, g, w);
      answers, got, put := answers + [a], got + [g], put + [w];
      i := i + 1;
    }
  }
}
