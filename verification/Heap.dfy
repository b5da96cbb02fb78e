/** kernel/allocator.c: the first-fit kernel heap with splitting and coalescing. */
module Heap {

  const HEAP_START: nat := 0x0020_0000
  const HEAP_SIZE: nat := 0x0010_0000
  const HEAP_END: nat := HEAP_START + HEAP_SIZE
  const ALIGNMENT: nat := 16
  const MIN_SPLIT: nat := 32
  /** sizeof(struct heap_block) */
  const HEADER: nat := 16
  const WORD: nat := 0x1_0000_0000

  /** align_up on 32-bit words: the addition wraps. */
  function AlignUp(value: nat): nat {
    (value + (ALIGNMENT - 1)) % WORD / ALIGNMENT * ALIGNMENT
  }

  /** The rounded size covers the request exactly when the request is at most 2^32 - 16;
      for a larger one the addition wraps to 0. */
  lemma AlignUpCovers(size: nat)
    requires size < WORD
    ensures AlignUp(size) % ALIGNMENT == 0
    ensures AlignUp(size) >= size <==> size <= WORD - ALIGNMENT
    ensures size <= WORD - ALIGNMENT ==> AlignUp(size) < size + ALIGNMENT
    ensures size > WORD - ALIGNMENT ==> AlignUp(size) == 0
  {
  }

  // ---------- the block list as a value ----------

  datatype Block = Block(at: nat, size: nat, free: bool) {
    function End(): nat { at + HEADER + size }
    function Payload(): nat { at + HEADER }
  }

  /** The blocks lie one after the other from one address to another. */
  ghost predicate Chain(bs: seq<Block>, from: nat, to: nat) {
    if bs == [] then from == to
    else bs[0].at == from && bs[0].size % ALIGNMENT == 0 && Chain(bs[1..], bs[0].End(), to)
  }

  ghost function EndOf(bs: seq<Block>, from: nat): nat {
    if bs == [] then from else bs[|bs| - 1].End()
  }

  lemma {:induction false} ChainConcat(a: seq<Block>, b: seq<Block>, from: nat, to: nat)
    ensures Chain(a + b, from, to) <==> Chain(a, from, EndOf(a, from)) && Chain(b, EndOf(a, from), to)
  {
    if a == [] {
      assert a + b == b;
    } else {
      assert (a + b)[1..] == a[1..] + b;
      ChainConcat(a[1..], b, a[0].End(), to);
    }
  }

  /** The blocks of a chain are aligned and disjoint. */
  lemma {:induction false} ChainDisjoint(bs: seq<Block>, from: nat, to: nat)
    requires Chain(bs, from, to) && from % ALIGNMENT == 0
    ensures from <= to
    ensures forall i :: 0 <= i < |bs| ==> from <= bs[i].at && bs[i].End() <= to && bs[i].Payload() % ALIGNMENT == 0
    ensures forall i, j :: 0 <= i < j < |bs| ==> bs[i].End() <= bs[j].at
  {
    if bs != [] {
      ChainDisjoint(bs[1..], bs[0].End(), to);
      assert forall i :: 0 < i < |bs| ==> bs[i] == bs[1..][i - 1];
    }
  }

  /** No two neighbours are both free; `left` says whether a free block comes before. */
  ghost predicate Apart(bs: seq<Block>, left: bool) {
    bs == [] || (!(left && bs[0].free) && Apart(bs[1..], bs[0].free))
  }

  ghost function LastFree(bs: seq<Block>, left: bool): bool {
    if bs == [] then left else bs[|bs| - 1].free
  }

  lemma {:induction false} ApartConcat(a: seq<Block>, b: seq<Block>, left: bool)
    ensures Apart(a + b, left) <==> Apart(a, left) && Apart(b, LastFree(a, left))
  {
    if a == [] {
      assert a + b == b;
    } else {
      assert (a + b)[1..] == a[1..] + b;
      ApartConcat(a[1..], b, a[0].free);
    }
  }

  ghost predicate Tiles(bs: seq<Block>) { Chain(bs, HEAP_START, HEAP_END) }

  ghost predicate Good(bs: seq<Block>) { Tiles(bs) && Apart(bs, false) }

  const Whole: Block := Block(HEAP_START, HEAP_SIZE - HEADER, true)

  ghost function Live(bs: seq<Block>): set<Block> {
    set b | b in bs && !b.free
  }

  ghost function Bytes(bs: seq<Block>, free: bool): nat {
    if bs == [] then 0 else (if bs[0].free == free then bs[0].size else 0) + Bytes(bs[1..], free)
  }

  lemma {:induction false} BytesConcat(a: seq<Block>, b: seq<Block>, free: bool)
    ensures Bytes(a + b, free) == Bytes(a, free) + Bytes(b, free)
  {
    if a == [] {
      assert a + b == b;
    } else {
      assert (a + b)[1..] == a[1..] + b;
      BytesConcat(a[1..], b, free);
    }
  }

  /** Used bytes, free bytes and headers add up to the heap. */
  lemma {:induction false} Conserved(bs: seq<Block>, from: nat, to: nat)
    requires Chain(bs, from, to)
    ensures Bytes(bs, false) + Bytes(bs, true) + HEADER * |bs| == to - from
  {
    if bs != [] {
      Conserved(bs[1..], bs[0].End(), to);
    }
  }

  /** The used blocks determine the whole list: the layout does not depend on the history. */
  lemma {:induction false} Canonical(a: seq<Block>, b: seq<Block>, from: nat, to: nat, left: bool)
    requires from % ALIGNMENT == 0
    requires Chain(a, from, to) && Apart(a, left) && Chain(b, from, to) && Apart(b, left)
    requires Live(a) == Live(b)
    ensures a == b
    decreases |a|
  {
    if a == [] || b == [] {
      ChainDisjoint(a, from, to);
      ChainDisjoint(b, from, to);
    } else {
      SameFirst(a, b, from, to, left);
      LiveRest(a, from, to);
      LiveRest(b, from, to);
      Canonical(a[1..], b[1..], a[0].End(), to, a[0].free);
    }
  }

  lemma LiveRest(bs: seq<Block>, from: nat, to: nat)
    requires Chain(bs, from, to) && bs != [] && from % ALIGNMENT == 0
    ensures Live(bs[1..]) == Live(bs) - {bs[0]}
  {
    ChainDisjoint(bs, from, to);
    assert bs == [bs[0]] + bs[1..];
    forall b | b in bs[1..]
      ensures b != bs[0]
    {
      var i :| 0 <= i < |bs[1..]| && bs[1..][i] == b;
      assert b == bs[i + 1];
    }
  }

  lemma SameFirst(a: seq<Block>, b: seq<Block>, from: nat, to: nat, left: bool)
    requires a != [] && b != [] && from % ALIGNMENT == 0
    requires Chain(a, from, to) && Apart(a, left) && Chain(b, from, to) && Apart(b, left)
    requires Live(a) == Live(b)
    ensures a[0] == b[0]
  {
    NoEarlierLive(a, b, from, to, left);
    NoEarlierLive(b, a, from, to, left);
  }

  /** If b begins with a used block, so does a, with the same one; if both begin with a free
      block, the one in a is not longer. */
  lemma NoEarlierLive(a: seq<Block>, b: seq<Block>, from: nat, to: nat, left: bool)
    requires a != [] && b != [] && from % ALIGNMENT == 0
    requires Chain(a, from, to) && Apart(a, left) && Chain(b, from, to) && Apart(b, left)
    requires Live(a) == Live(b)
    ensures !b[0].free ==> a[0] == b[0]
    ensures a[0].free && b[0].free ==> a[0].size <= b[0].size
  {
    ChainDisjoint(a, from, to);
    if !b[0].free {
      assert b[0] in Live(a);
      var i :| 0 <= i < |a| && a[i] == b[0];
      assert i == 0;
    } else if a[0].free && |b| > 1 {
      assert !b[1].free && b[1].at == b[0].End();
      assert b[1] in Live(a);
      var i :| 0 <= i < |a| && a[i] == b[1];
      assert i > 0;
    }
  }

  /** When nothing is in use, the heap is one free block again. */
  lemma AllFreeIsWhole(bs: seq<Block>)
    requires Good(bs) && Live(bs) == {}
    ensures bs == [Whole]
  {
    assert Live([Whole]) == {};
    Canonical(bs, [Whole], HEAP_START, HEAP_END, false);
  }

  // ---------- what the operations do to the list ----------

  /** Replacing a stretch of the list by another that covers the same addresses. */
  lemma ChainReplace(a: seq<Block>, m: seq<Block>, m2: seq<Block>, c: seq<Block>)
    requires Tiles(a + m + c) && m != [] && m2 != []
    requires Chain(m2, m[0].at, m[|m| - 1].End())
    ensures Tiles(a + m2 + c)
  {
    var from := EndOf(a, HEAP_START);
    ChainConcat(a + m, c, HEAP_START, HEAP_END);
    ChainConcat(a, m, HEAP_START, EndOf(m, from));
    ChainEnd(m2, m[0].at, m[|m| - 1].End());
    ChainConcat(a, m2, HEAP_START, EndOf(m2, from));
    ChainConcat(a + m2, c, HEAP_START, HEAP_END);
  }

  lemma {:induction false} ChainEnd(bs: seq<Block>, from: nat, to: nat)
    requires Chain(bs, from, to)
    ensures EndOf(bs, from) == to
  {
    if bs != [] {
      ChainEnd(bs[1..], bs[0].End(), to);
    }
  }

  lemma Cut(bs: seq<Block>, k: nat)
    requires k < |bs|
    ensures bs == bs[..k] + [bs[k]] + bs[k + 1..]
    ensures k + 1 < |bs| ==> bs == bs[..k] + [bs[k], bs[k + 1]] + bs[k + 2..]
  {
  }

  /** What is left of a block of which `size` bytes are used, if it is worth a block. */
  ghost function Parts(b: Block, size: nat, free: bool): (r: seq<Block>)
    requires size <= b.size
    ensures r != [] && r[0].at == b.at && r[|r| - 1].End() == b.End()
  {
    if b.size - size <= HEADER + MIN_SPLIT then [b.(free := free)]
    else [Block(b.at, size, free), Block(b.at + HEADER + size, b.size - size - HEADER, true)]
  }

  /** A block is split exactly if more than 48 bytes would be left over; then the request gets what it
      asked for and the rest is a free block behind a header of its own, otherwise it gets all. */
  lemma PartsMean(b: Block, size: nat)
    requires size <= b.size
    ensures var m := Parts(b, size, false);
      && m[0].at == b.at && !m[0].free && size <= m[0].size <= size + 48
      && (b.size <= size + 48 ==> m == [Block(b.at, b.size, false)])
      && (b.size > size + 48 ==>
            |m| == 2 && m[0].size == size && m[1].free && m[1].at == b.at + 16 + size && m[1].size == b.size - size - 16)
  {
  }

  ghost function Split(bs: seq<Block>, k: nat, size: nat, free: bool): seq<Block>
    requires k < |bs| && size <= bs[k].size
  {
    bs[..k] + Parts(bs[k], size, free) + bs[k + 1..]
  }

  /** The block at k swallows the one after it. */
  ghost function Merge(bs: seq<Block>, k: nat): seq<Block>
    requires k + 1 < |bs|
  {
    bs[..k] + [bs[k].(size := bs[k].size + HEADER + bs[k + 1].size)] + bs[k + 2..]
  }

  lemma BlockAligned(bs: seq<Block>, k: nat)
    requires Tiles(bs) && k < |bs|
    ensures bs[k].size % ALIGNMENT == 0 && (k + 1 < |bs| ==> bs[k + 1].at == bs[k].End())
  {
    Cut(bs, k);
    ChainConcat(bs[..k], [bs[k]] + bs[k + 1..], HEAP_START, HEAP_END);
    assert bs[..k] + ([bs[k]] + bs[k + 1..]) == bs;
    assert ([bs[k]] + bs[k + 1..])[1..] == bs[k + 1..];
  }

  lemma SplitTiles(bs: seq<Block>, k: nat, size: nat, free: bool)
    requires Tiles(bs) && k < |bs| && size <= bs[k].size && size % ALIGNMENT == 0
    ensures Tiles(Split(bs, k, size, free))
  {
    Cut(bs, k);
    BlockAligned(bs, k);
    var b, m := bs[k], Parts(bs[k], size, free);
    if |m| == 2 {
      assert m[1..] == [m[1]];
    }
    assert Chain(m, b.at, b.End());
    ChainReplace(bs[..k], [b], m, bs[k + 1..]);
  }

  lemma MergeTiles(bs: seq<Block>, k: nat)
    requires Tiles(bs) && k + 1 < |bs|
    ensures Tiles(Merge(bs, k))
  {
    Cut(bs, k);
    BlockAligned(bs, k);
    BlockAligned(bs, k + 1);
    var m := bs[k].(size := bs[k].size + HEADER + bs[k + 1].size);
    ChainReplace(bs[..k], [bs[k], bs[k + 1]], [m], bs[k + 2..]);
  }

  // ---------- the headers in memory ----------

  /** struct heap_block; an address of 0 is NULL. */
  datatype Header = Header(size: nat, free: bool, next: nat, prev: nat)

  ghost function HeadAt(bs: seq<Block>, next: nat): nat { if bs == [] then next else bs[0].at }

  ghost function LastAt(bs: seq<Block>, prev: nat): nat { if bs == [] then prev else bs[|bs| - 1].at }

  /** The headers of the blocks are in memory and linked both ways. */
  ghost predicate Links(bs: seq<Block>, mem: map<nat, Header>, prev: nat, next: nat) {
    bs == [] ||
    (&& bs[0].at in mem
     && mem[bs[0].at] == Header(bs[0].size, bs[0].free, HeadAt(bs[1..], next), prev)
     && Links(bs[1..], mem, bs[0].at, next))
  }

  lemma {:induction false} LinksConcat(a: seq<Block>, b: seq<Block>, mem: map<nat, Header>, prev: nat, next: nat)
    ensures Links(a + b, mem, prev, next) <==> Links(a, mem, prev, HeadAt(b, next)) && Links(b, mem, LastAt(a, prev), next)
  {
    if a == [] {
      assert a + b == b;
    } else {
      assert (a + b)[1..] == a[1..] + b;
      LinksConcat(a[1..], b, mem, a[0].at, next);
    }
  }

  ghost predicate SameAt(bs: seq<Block>, mem: map<nat, Header>, mem2: map<nat, Header>) {
    forall b :: b in bs && b.at in mem ==> b.at in mem2 && mem2[b.at] == mem[b.at]
  }

  lemma {:induction false} LinksKept(bs: seq<Block>, mem: map<nat, Header>, mem2: map<nat, Header>, prev: nat, next: nat)
    requires Links(bs, mem, prev, next) && SameAt(bs, mem, mem2)
    ensures Links(bs, mem2, prev, next)
  {
    if bs != [] {
      assert bs[0] in bs;
      LinksKept(bs[1..], mem, mem2, bs[0].at, next);
    }
  }

  /** The header of the block after a stretch that is replaced points back to its new last block. */
  ghost predicate PointsBack(c: seq<Block>, mem: map<nat, Header>, mem2: map<nat, Header>, prev: nat) {
    c != [] ==>
      && (c[0].at in mem ==> c[0].at in mem2 && mem2[c[0].at] == mem[c[0].at].(prev := prev))
      && SameAt(c[1..], mem, mem2)
  }

  lemma LinksReplace(a: seq<Block>, m: seq<Block>, m2: seq<Block>, c: seq<Block>, mem: map<nat, Header>, mem2: map<nat, Header>)
    requires m != [] && m2 != [] && m[0].at == m2[0].at
    requires Links(a + m + c, mem, 0, 0) && Links(m2, mem2, LastAt(a, 0), HeadAt(c, 0))
    requires SameAt(a, mem, mem2) && PointsBack(c, mem, mem2, m2[|m2| - 1].at)
    ensures Links(a + m2 + c, mem2, 0, 0)
  {
    LinksConcat(a + m, c, mem, 0, 0);
    LinksConcat(a, m, mem, 0, HeadAt(c, 0));
    LinksKept(a, mem, mem2, 0, m[0].at);
    if c != [] {
      LinksKept(c[1..], mem, mem2, c[0].at, 0);
    }
    LinksConcat(a, m2, mem2, 0, HeadAt(c, 0));
    LinksConcat(a + m2, c, mem2, 0, 0);
  }

  /** The header of the block at k. */
  lemma LinksAt(bs: seq<Block>, mem: map<nat, Header>, k: nat)
    requires Links(bs, mem, 0, 0) && k < |bs|
    ensures bs[k].at in mem
    ensures mem[bs[k].at] == Header(bs[k].size, bs[k].free, HeadAt(bs[k + 1..], 0), LastAt(bs[..k], 0))
  {
    assert bs == bs[..k] + bs[k..];
    LinksConcat(bs[..k], bs[k..], mem, 0, 0);
    assert bs[k..][1..] == bs[k + 1..];
  }

  /** What a stretch of one or two blocks contributes. */
  lemma Small(m: seq<Block>)
    requires 1 <= |m| <= 2
    ensures Live(m) == (if m[0].free then {} else {m[0]}) + (if |m| == 2 && !m[1].free then {m[1]} else {})
    ensures Bytes(m, false) == (if m[0].free then 0 else m[0].size) + (if |m| == 2 && !m[1].free then m[1].size else 0)
    ensures forall left :: Apart(m, left) <==> !(left && m[0].free) && (|m| == 2 ==> !(m[0].free && m[1].free))
  {
    if |m| == 2 {
      assert m[1..] == [m[1]];
    }
    assert forall b :: b in m <==> b == m[0] || (|m| == 2 && b == m[1]);
  }

  lemma Around(a: seq<Block>, m: seq<Block>, c: seq<Block>)
    requires m != []
    ensures Live(a + m + c) == Live(a) + Live(m) + Live(c)
    ensures Bytes(a + m + c, false) == Bytes(a, false) + Bytes(m, false) + Bytes(c, false)
    ensures Apart(a + m + c, false) <==>
              Apart(a, false) && Apart(m, LastFree(a, false)) && Apart(c, m[|m| - 1].free)
  {
    BytesConcat(a + m, c, false);
    BytesConcat(a, m, false);
    ApartConcat(a + m, c, false);
    ApartConcat(a, m, false);
  }

  lemma ApartWeaker(c: seq<Block>, left: bool)
    requires Apart(c, left)
    ensures Apart(c, false)
    ensures c == [] || !c[0].free ==> Apart(c, true)
  {
  }

  /** Taking a free block: the list stays a coalesced tiling and one used block is added. */
  lemma TakenGood(bs: seq<Block>, k: nat, size: nat)
    requires Good(bs) && k < |bs| && bs[k].free && size <= bs[k].size && size % ALIGNMENT == 0
    ensures Good(Split(bs, k, size, false))
    ensures Live(Split(bs, k, size, false)) == Live(bs) + {Parts(bs[k], size, false)[0]}
    ensures Bytes(Split(bs, k, size, false), false) == Bytes(bs, false) + Parts(bs[k], size, false)[0].size
  {
    var a, b, m, c := bs[..k], bs[k], Parts(bs[k], size, false), bs[k + 1..];
    Cut(bs, k);
    SplitTiles(bs, k, size, false);
    hide Live, Bytes, Apart, Chain;
    Around(a, [b], c);
    Around(a, m, c);
    Small([b]);
    Small(m);
    ApartWeaker(c, true);
  }

  lemma TakenFresh(bs: seq<Block>, k: nat, b: Block)
    requires Tiles(bs) && k < |bs| && bs[k].free && b.at == bs[k].at && !b.free
    ensures b !in Live(bs)
  {
    ChainDisjoint(bs, HEAP_START, HEAP_END);
    assert forall i :: 0 <= i < |bs| && i != k ==> bs[i].at != b.at;
  }

  /** The list after the block at k is given back: first the next block is swallowed if it is
      free, then the previous block, if it is free, swallows this one. */
  ghost function MergeNext(bs: seq<Block>, k: nat): seq<Block>
    requires k < |bs|
  {
    if k + 1 < |bs| && bs[k + 1].free then Merge(bs, k) else bs
  }

  ghost function MergePrev(bs: seq<Block>, k: nat): seq<Block>
    requires k < |bs|
  {
    if k > 0 && bs[k - 1].free then Merge(bs, k - 1) else bs
  }

  /** A list in which only the neighbours of the free block at k may be free too. */
  ghost predicate FreeAround(bs: seq<Block>, k: nat) {
    k < |bs| && bs[k].free && Apart(bs[..k], false) && Apart(bs[k + 1..], false)
  }

  lemma FreedFits(bs: seq<Block>, k: nat)
    requires Good(bs) && k < |bs| && !bs[k].free
    ensures Tiles(bs[k := bs[k].(free := true)]) && FreeAround(bs[k := bs[k].(free := true)], k)
    ensures Live(bs[k := bs[k].(free := true)]) == Live(bs) - {bs[k]}
    ensures Bytes(bs[k := bs[k].(free := true)], false) == Bytes(bs, false) - bs[k].size
  {
    hide Live, Bytes, Apart, Chain;
    var a, b, m, c := bs[..k], bs[k], [bs[k].(free := true)], bs[k + 1..];
    var r := bs[k := bs[k].(free := true)];
    Cut(bs, k);
    assert r == a + m + c && r[..k] == a && r[k + 1..] == c;
    RetagTiles(bs, k, true);
    Around(a, [b], c);
    Around(a, m, c);
    Small([b]);
    Small(m);
    Only(bs, k);
  }

  lemma RetagTiles(bs: seq<Block>, k: nat, free: bool)
    requires Tiles(bs) && k < |bs|
    ensures Tiles(bs[k := bs[k].(free := free)])
  {
    Cut(bs, k);
    BlockAligned(bs, k);
    ChainReplace(bs[..k], [bs[k]], [bs[k].(free := free)], bs[k + 1..]);
    assert bs[k := bs[k].(free := free)] == bs[..k] + [bs[k].(free := free)] + bs[k + 1..];
  }

  lemma Only(bs: seq<Block>, k: nat)
    requires Tiles(bs) && k < |bs|
    ensures bs[k] !in Live(bs[..k]) && bs[k] !in Live(bs[k + 1..])
  {
    ChainDisjoint(bs, HEAP_START, HEAP_END);
    var a, c := bs[..k], bs[k + 1..];
    assert forall i :: 0 <= i < |a| ==> a[i].at != bs[k].at;
    assert forall i :: 0 <= i < |c| ==> c[i].at != bs[k].at;
  }

  lemma MergeNextFits(bs: seq<Block>, k: nat)
    requires Tiles(bs) && FreeAround(bs, k)
    ensures Tiles(MergeNext(bs, k)) && FreeAround(MergeNext(bs, k), k) && Apart(MergeNext(bs, k)[k + 1..], true)
    ensures MergeNext(bs, k)[..k] == bs[..k]
    ensures Live(MergeNext(bs, k)) == Live(bs) && Bytes(MergeNext(bs, k), false) == Bytes(bs, false)
  {
    if k + 1 < |bs| && bs[k + 1].free {
      MergeTiles(bs, k);
      MergeKeeps(bs, k);
      assert bs[k + 1..][1..] == bs[k + 2..];
      ApartWeaker(bs[k + 2..], true);
      hide Live, Bytes, Apart, Chain;
      var r := Merge(bs, k);
      assert r[k + 1..] == bs[k + 2..] && r[..k] == bs[..k];
    } else {
      ApartWeaker(bs[k + 1..], false);
    }
  }

  /** Merging two free blocks changes nothing that is in use. */
  lemma MergeKeeps(bs: seq<Block>, k: nat)
    requires k + 1 < |bs| && bs[k].free && bs[k + 1].free
    ensures Live(Merge(bs, k)) == Live(bs) && Bytes(Merge(bs, k), false) == Bytes(bs, false)
  {
    hide Live, Bytes, Apart;
    var a, c := bs[..k], bs[k + 2..];
    var m, m2 := [bs[k], bs[k + 1]], [bs[k].(size := bs[k].size + HEADER + bs[k + 1].size)];
    Cut(bs, k);
    Around(a, m, c);
    Around(a, m2, c);
    Small(m);
    Small(m2);
  }

  lemma MergePrevFits(bs: seq<Block>, k: nat)
    requires Tiles(bs) && FreeAround(bs, k) && Apart(bs[k + 1..], true)
    ensures Good(MergePrev(bs, k))
    ensures Live(MergePrev(bs, k)) == Live(bs) && Bytes(MergePrev(bs, k), false) == Bytes(bs, false)
  {
    hide Live, Bytes, Apart, Chain;
    Cut(bs, k);
    if k > 0 && bs[k - 1].free {
      MergeTiles(bs, k - 1);
      MergeKeeps(bs, k - 1);
      var m := [Merge(bs, k - 1)[k - 1]];
      assert bs[..k] == bs[..k - 1] + [bs[k - 1]];
      ApartConcat(bs[..k - 1], [bs[k - 1]], false);
      Small([bs[k - 1]]);
      Small(m);
      Around(bs[..k - 1], m, bs[k + 1..]);
    } else {
      Small([bs[k]]);
      Around(bs[..k], [bs[k]], bs[k + 1..]);
    }
  }

  /** Blocks on either side of a stretch m keep their headers, except that the one after it
      points back to `last`. */
  ghost predicate Rewired(bs: seq<Block>, k: nat, n: nat, mem: map<nat, Header>, mem2: map<nat, Header>, last: nat)
    requires k + n <= |bs|
  {
    && SameAt(bs[..k], mem, mem2)
    && PointsBack(bs[k + n..], mem, mem2, last)
  }

  /** It is enough that nothing outside the stretch is written but the header after it. */
  lemma WrittenInside(bs: seq<Block>, k: nat, n: nat, mem: map<nat, Header>, mem2: map<nat, Header>, last: nat)
    requires Tiles(bs) && 0 < n && k + n <= |bs|
    requires forall x :: x in mem && (x < bs[k].at || x >= bs[k + n - 1].End()) && x != HeadAt(bs[k + n..], 0) ==>
               x in mem2 && mem2[x] == mem[x]
    requires k + n < |bs| && bs[k + n].at in mem ==>
               bs[k + n].at in mem2 && mem2[bs[k + n].at] == mem[bs[k + n].at].(prev := last)
    ensures Rewired(bs, k, n, mem, mem2, last)
  {
    ChainDisjoint(bs, HEAP_START, HEAP_END);
    var a, c := bs[..k], bs[k + n..];
    assert forall i :: 0 <= i < |a| ==> a[i].at < bs[k].at;
    if c != [] {
      var d := c[1..];
      assert forall i :: 0 <= i < |d| ==> d[i] == bs[k + n + 1 + i];
      assert forall i :: 0 <= i < |d| ==> d[i].at > c[0].at >= bs[k + n - 1].End();
    }
  }

  lemma SplitLinks(bs: seq<Block>, k: nat, size: nat, mem: map<nat, Header>, mem2: map<nat, Header>)
    requires Tiles(bs) && Links(bs, mem, 0, 0) && k < |bs| && size <= bs[k].size && bs[k].size - size > HEADER + MIN_SPLIT
    requires var n := bs[k].at + HEADER + size; var next := HeadAt(bs[k + 1..], 0);
      && Rewired(bs, k, 1, mem, mem2, n)
      && n in mem2 && mem2[n] == Header(bs[k].size - size - HEADER, true, next, bs[k].at)
      && bs[k].at in mem2 && mem2[bs[k].at] == Header(size, true, n, LastAt(bs[..k], 0))
    ensures Links(Split(bs, k, size, true), mem2, 0, 0)
  {
    var m := Parts(bs[k], size, true);
    Cut(bs, k);
    assert m[1..] == [m[1]] && m[1..][1..] == [];
    LinksReplace(bs[..k], [bs[k]], m, bs[k + 1..], mem, mem2);
  }

  lemma MergeLinks(bs: seq<Block>, k: nat, mem: map<nat, Header>, mem2: map<nat, Header>)
    requires Tiles(bs) && Links(bs, mem, 0, 0) && k + 1 < |bs|
    requires Rewired(bs, k, 2, mem, mem2, bs[k].at)
    requires bs[k].at in mem2
    requires mem2[bs[k].at] ==
      Header(bs[k].size + HEADER + bs[k + 1].size, bs[k].free, HeadAt(bs[k + 2..], 0), LastAt(bs[..k], 0))
    ensures Links(Merge(bs, k), mem2, 0, 0)
  {
    Cut(bs, k);
    LinksReplace(bs[..k], [bs[k], bs[k + 1]], [Merge(bs, k)[k]], bs[k + 2..], mem, mem2);
  }

  lemma RetagLinks(bs: seq<Block>, k: nat, mem: map<nat, Header>, free: bool)
    requires Tiles(bs) && Links(bs, mem, 0, 0) && k < |bs|
    ensures bs[k].at in mem && Links(bs[k := bs[k].(free := free)], mem[bs[k].at := mem[bs[k].at].(free := free)], 0, 0)
  {
    LinksAt(bs, mem, k);
    var b := bs[k].(free := free);
    var mem2 := mem[b.at := mem[b.at].(free := free)];
    assert Links([b], mem2, LastAt(bs[..k], 0), HeadAt(bs[k + 1..], 0));
    hide Links, Chain, SameAt, PointsBack;
    Cut(bs, k);
    RetagRewired(bs, k, mem, free);
    LinksReplace(bs[..k], [bs[k]], [b], bs[k + 1..], mem, mem2);
    assert bs[k := b] == bs[..k] + [b] + bs[k + 1..];
  }

  lemma RetagRewired(bs: seq<Block>, k: nat, mem: map<nat, Header>, free: bool)
    requires Tiles(bs) && Links(bs, mem, 0, 0) && k < |bs| && bs[k].at in mem
    ensures Rewired(bs, k, 1, mem, mem[bs[k].at := mem[bs[k].at].(free := free)], bs[k].at)
  {
    Neighbour(bs, mem, k);
    hide Links, Chain, Rewired;
    WrittenInside(bs, k, 1, mem, mem[bs[k].at := mem[bs[k].at].(free := free)], bs[k].at);
  }

  /** The block after the one at k points back to it. */
  lemma Neighbour(bs: seq<Block>, mem: map<nat, Header>, k: nat)
    requires Tiles(bs) && Links(bs, mem, 0, 0) && k < |bs|
    ensures k + 1 < |bs| ==> bs[k + 1].at in mem && mem[bs[k + 1].at].prev == bs[k].at && bs[k + 1].at == bs[k].End()
    ensures HeadAt(bs[k + 1..], 0) == if k + 1 < |bs| then bs[k + 1].at else 0
    ensures LastAt(bs[..k], 0) == if k > 0 then bs[k - 1].at else 0
    ensures bs[k].at > 0 && bs[k].at in mem
  {
    ChainDisjoint(bs, HEAP_START, HEAP_END);
    LinksAt(bs, mem, k);
    if k + 1 < |bs| {
      LinksAt(bs, mem, k + 1);
      assert bs[..k + 1][k] == bs[k];
      BlockAligned(bs, k);
    }
  }

  /** The first free block that is large enough. */
  ghost predicate FirstFit(bs: seq<Block>, needed: nat, k: int) {
    && 0 <= k < |bs| && bs[k].free && bs[k].size >= needed
    && forall i :: 0 <= i < k ==> !(bs[i].free && bs[i].size >= needed)
  }

  /** The block that is taken is the lowest of those that are free and large enough. */
  lemma FirstFitMeans(bs: seq<Block>, needed: nat, k: int)
    ensures FirstFit(bs, needed, k) ==> 0 <= k < |bs| && bs[k].free && needed <= bs[k].size
    ensures FirstFit(bs, needed, k) ==> forall i :: 0 <= i < k ==> !bs[i].free || bs[i].size < needed
    ensures NoFit(bs, needed) <==> forall i :: 0 <= i < |bs| ==> !bs[i].free || bs[i].size < needed
  {
  }

  ghost predicate NoFit(bs: seq<Block>, needed: nat) {
    forall i :: 0 <= i < |bs| ==> !(bs[i].free && bs[i].size >= needed)
  }

  class KernelHeap {
    var head: nat
    var used: nat
    var mem: map<nat, Header>
    ghost var blocks: seq<Block>

    ghost predicate Shaped()
      reads this
    {
      head == HEAP_START && Tiles(blocks) && Links(blocks, mem, 0, 0)
    }

    ghost predicate Valid()
      reads this
    {
      Shaped() && Good(blocks) && used == Bytes(blocks, false)
    }

    /** allocator_init */
    constructor ()
      ensures Valid() && blocks == [Whole]
    {
      head := HEAP_START;
      mem := map[HEAP_START := Header(HEAP_SIZE - HEADER, true, 0, 0)];
      used := 0;
      blocks := [Whole];
    }

    /** split_block */
    method SplitBlock(block: nat, size: nat, ghost k: nat)
      requires Shaped() && k < |blocks| && blocks[k].at == block && blocks[k].free
      requires size <= blocks[k].size && size % ALIGNMENT == 0
      modifies this`mem, this`blocks
      ensures Shaped() && blocks == Split(old(blocks), k, size, true)
    {
      hide Links, Chain;
      ghost var bs, mem0 := blocks, mem;
      LinksAt(bs, mem, k);
      Neighbour(bs, mem, k);
      Cut(bs, k);
      var remaining := mem[block].size - size;
      if remaining <= HEADER + MIN_SPLIT {
        assert bs[k].(free := true) == bs[k];
        return;
      }
      SplitTiles(bs, k, size, true);
      var next := block + HEADER + size;
      mem := mem[next := Header(remaining - HEADER, true, mem[block].next, block)];
      if mem[next].next != 0 {
        var after := mem[next].next;
        mem := mem[after := mem[after].(prev := next)];
      }
      mem := mem[block := mem[block].(size := size, next := next)];
      WrittenInside(bs, k, 1, mem0, mem, next);
      SplitLinks(bs, k, size, mem0, mem);
      blocks := Split(bs, k, size, true);
    }

    method SetFree(block: nat, free: bool, ghost k: nat)
      requires Shaped() && k < |blocks| && blocks[k].at == block
      modifies this`mem, this`blocks
      ensures Shaped() && blocks == old(blocks)[k := old(blocks)[k].(free := free)]
    {
      hide Links, Chain;
      RetagLinks(blocks, k, mem, free);
      RetagTiles(blocks, k, free);
      mem := mem[block := mem[block].(free := free)];
      blocks := blocks[k := blocks[k].(free := free)];
    }

    /** The block takes over the one after it: either half of coalesce. */
    method AbsorbNext(block: nat, ghost k: nat)
      requires Shaped() && k + 1 < |blocks| && blocks[k].at == block
      modifies this`mem, this`blocks
      ensures Shaped() && blocks == Merge(old(blocks), k)
    {
      hide Links, Chain;
      ghost var bs, mem0 := blocks, mem;
      LinksAt(bs, mem, k);
      LinksAt(bs, mem, k + 1);
      Neighbour(bs, mem, k);
      Neighbour(bs, mem, k + 1);
      MergeTiles(bs, k);
      var next := mem[block].next;
      mem := mem[block := mem[block].(size := mem[block].size + HEADER + mem[next].size, next := mem[next].next)];
      if mem[block].next != 0 {
        var after := mem[block].next;
        mem := mem[after := mem[after].(prev := block)];
      }
      WrittenInside(bs, k, 2, mem0, mem, block);
      MergeLinks(bs, k, mem0, mem);
      blocks := Merge(bs, k);
    }

    /** coalesce */
    method Coalesce(block: nat, ghost k: nat)
      requires Shaped() && k < |blocks| && blocks[k].at == block && FreeAround(blocks, k)
      modifies this`mem, this`blocks
      ensures Shaped() && blocks == MergePrev(MergeNext(old(blocks), k), k)
    {
      hide Links, Chain, Merge, Live, Bytes, Apart;
      LinksAt(blocks, mem, k);
      Neighbour(blocks, mem, k);
      MergeNextFits(blocks, k);
      if mem[block].next != 0 {
        LinksAt(blocks, mem, k + 1);
        if mem[mem[block].next].free {
          AbsorbNext(block, k);
        }
      }
      assert blocks == MergeNext(old(blocks), k);
      SameBlock(old(blocks), k);
      FirstBlock(blocks);
      LinksAt(blocks, mem, k);
      Neighbour(blocks, mem, k);
      if mem[block].prev != 0 {
        LinksAt(blocks, mem, k - 1);
        if mem[mem[block].prev].free {
          AbsorbNext(mem[block].prev, k - 1);
        }
      }
    }

    /** kmalloc */
    method Kmalloc(size: nat) returns (ptr: nat, ghost k: int)
      requires Valid() && size < WORD
      modifies this
      ensures Valid()
      ensures ptr == 0 <==> size == 0 || NoFit(old(blocks), AlignUp(size))
      ensures ptr == 0 ==> blocks == old(blocks) && mem == old(mem)
      ensures ptr != 0 ==>
        && FirstFit(old(blocks), AlignUp(size), k)
        && blocks == Split(old(blocks), k, AlignUp(size), false)
        && 0 <= k < |blocks| && ptr == blocks[k].Payload() && !blocks[k].free && blocks[k].size >= AlignUp(size)
        && blocks[k] !in Live(old(blocks)) && Live(blocks) == Live(old(blocks)) + {blocks[k]}
    {
      if head == 0 || size == 0 {
        return 0, -1;
      }
      var needed := AlignUp(size);
      k := 0;
      var block := head;
      FirstBlock(blocks);
      while block != 0
        invariant Valid() && blocks == old(blocks) && mem == old(mem)
        invariant 0 <= k <= |blocks| && block == HeadAt(blocks[k..], 0)
        invariant forall i :: 0 <= i < k ==> !(blocks[i].free && blocks[i].size >= needed)
        decreases |blocks| - k
      {
        LinksAt(blocks, mem, k);
        if mem[block].free && mem[block].size >= needed {
          ptr := Take(block, needed, k);
          return;
        }
        block := mem[block].next;
        k := k + 1;
      }
      return 0, -1;
    }

    /** The block found is split and marked as used. */
    method Take(block: nat, needed: nat, ghost k: nat) returns (ptr: nat)
      requires Valid() && k < |blocks| && blocks[k].at == block && blocks[k].free
      requires blocks[k].size >= needed && needed % ALIGNMENT == 0
      modifies this
      ensures Valid() && blocks == Split(old(blocks), k, needed, false)
      ensures k < |blocks| && blocks[k] == Parts(old(blocks)[k], needed, false)[0]
      ensures ptr == blocks[k].Payload() && ptr > 0
      ensures blocks[k] !in Live(old(blocks)) && Live(blocks) == Live(old(blocks)) + {blocks[k]}
    {
      hide Links, Chain, Live, Bytes, Apart;
      TakenGood(blocks, k, needed);
      TakenFresh(blocks, k, Parts(blocks[k], needed, false)[0]);
      SplitBlock(block, needed, k);
      SetFree(block, false, k);
      assert blocks == Split(old(blocks), k, needed, false);
      LinksAt(blocks, mem, k);
      used := used + mem[block].size;
      ptr := block + HEADER;
    }

    /** kfree, for a null pointer, a used block or a block that is already free. */
    method Kfree(ptr: nat, ghost k: nat)
      requires Valid() && (ptr != 0 ==> k < |blocks| && ptr == blocks[k].Payload())
      modifies this
      ensures Valid()
      ensures ptr == 0 || old(blocks)[k].free ==> blocks == old(blocks) && mem == old(mem)
      ensures ptr != 0 && !old(blocks)[k].free ==> Live(blocks) == Live(old(blocks)) - {old(blocks)[k]}
    {
      hide Links, Chain, Live, Bytes, Apart, Merge;
      if ptr == 0 {
        return;
      }
      var block := ptr - HEADER;
      LinksAt(blocks, mem, k);
      if mem[block].free {
        return;
      }
      FreedFits(blocks, k);
      SetFree(block, true, k);
      LinksAt(blocks, mem, k);
      used := Lowered(used, mem[block].size);
      MergeNextFits(blocks, k);
      MergePrevFits(MergeNext(blocks, k), k);
      Coalesce(block, k);
    }

    /** allocator_get_free_bytes */
    method FreeBytes() returns (total: nat)
      requires Valid()
      ensures total == Bytes(blocks, true) && used + total + HEADER * |blocks| == HEAP_SIZE
    {
      hide Links, Chain, Live, Apart;
      total := 0;
      var block := head;
      ghost var k := 0;
      FirstBlock(blocks);
      while block != 0
        invariant 0 <= k <= |blocks| && block == HeadAt(blocks[k..], 0)
        invariant total == Bytes(blocks[..k], true)
        decreases |blocks| - k
      {
        LinksAt(blocks, mem, k);
        BytesConcat(blocks[..k], [blocks[k]], true);
        assert blocks[..k + 1] == blocks[..k] + [blocks[k]];
        if mem[block].free {
          total := total + mem[block].size;
        }
        block := mem[block].next;
        k := k + 1;
      }
      assert blocks[..k] == blocks;
      Conserved(blocks, HEAP_START, HEAP_END);
    }
  }

  function Lowered(used: nat, size: nat): nat {
    if used >= size then used - size else 0
  }

  lemma FirstBlock(bs: seq<Block>)
    requires Tiles(bs)
    ensures bs != [] && HeadAt(bs[0..], 0) == HEAP_START
    ensures forall k :: 0 <= k < |bs| ==> bs[k].at > 0
  {
    ChainDisjoint(bs, HEAP_START, HEAP_END);
    assert bs[0..] == bs;
  }

  lemma SameBlock(bs: seq<Block>, k: nat)
    requires k < |bs|
    ensures k < |MergeNext(bs, k)| && MergeNext(bs, k)[k].at == bs[k].at
  {
  }

  // ---------- what the clients see ----------

  /** A request is refused exactly when no stretch of addresses outside the used blocks has
      room for it and its header: free space is never fragmented by the list itself. */
  lemma RefusedIffNoRoom(bs: seq<Block>, needed: nat)
    requires Good(bs)
    ensures NoFit(bs, needed) <==> !exists lo: nat, hi: nat :: Room(bs, lo, hi) && hi - lo >= HEADER + needed
  {
    ChainDisjoint(bs, HEAP_START, HEAP_END);
    if lo: nat, hi: nat :| Room(bs, lo, hi) && hi - lo >= HEADER + needed {
      var k := RoomIsBlock(bs, HEAP_START, HEAP_END, false, lo, hi);
    }
    if !NoFit(bs, needed) {
      var k :| 0 <= k < |bs| && bs[k].free && bs[k].size >= needed;
      assert forall i :: 0 <= i < |bs| && i != k ==> bs[i].End() <= bs[k].at || bs[k].End() <= bs[i].at;
      assert Room(bs, bs[k].at, bs[k].End());
    }
  }

  /** No used block, header included, reaches into the addresses from lo to hi. */
  ghost predicate Clear(bs: seq<Block>, lo: nat, hi: nat) {
    forall b :: b in Live(bs) ==> b.End() <= lo || hi <= b.at
  }

  ghost predicate Room(bs: seq<Block>, lo: nat, hi: nat) {
    HEAP_START <= lo < hi <= HEAP_END && Clear(bs, lo, hi)
  }

  lemma {:induction false} RoomIsBlock(bs: seq<Block>, from: nat, to: nat, left: bool, lo: nat, hi: nat) returns (k: nat)
    requires Chain(bs, from, to) && Apart(bs, left) && from % ALIGNMENT == 0
    requires from <= lo < hi <= to && Clear(bs, lo, hi)
    ensures k < |bs| && bs[k].free && hi - lo <= HEADER + bs[k].size
    decreases |bs|
  {
    assert bs[0].free || bs[0] in Live(bs);
    if |bs| > 1 {
      assert bs[1..][0] == bs[1] && (bs[1].free || bs[1] in Live(bs));
    }
    if lo < bs[0].End() {
      k := 0;
    } else {
      assert forall b :: b in Live(bs[1..]) ==> b in Live(bs);
      k := RoomIsBlock(bs[1..], bs[0].End(), to, bs[0].free, lo, hi);
      k := k + 1;
    }
  }

  /** Giving back what was just taken restores the list exactly. */
  lemma FreeUndoesMalloc(bs: seq<Block>, taken: seq<Block>, after: seq<Block>, b: Block)
    requires Good(bs) && Good(taken) && Good(after) && b !in Live(bs)
    requires Live(taken) == Live(bs) + {b} && Live(after) == Live(taken) - {b}
    ensures after == bs
  {
    assert Live(after) == Live(bs);
    Canonical(after, bs, HEAP_START, HEAP_END, false);
  }

  /** A request of 2^32 - 15 bytes is met on an empty heap, by a block of no bytes at all. */
  lemma WrappedRequest()
    ensures AlignUp(0xFFFF_FFF1) == 0 && FirstFit([Whole], AlignUp(0xFFFF_FFF1), 0)
    ensures Split([Whole], 0, AlignUp(0xFFFF_FFF1), false)[0] == Block(HEAP_START, 0, false)
  {
  }

  /** A client's write into its own payload, in units of a header, leaves every header alone. */
  lemma PayloadWrite(bs: seq<Block>, mem: map<nat, Header>, b: Block, at: nat, h: Header)
    requires Tiles(bs) && Links(bs, mem, 0, 0) && b in bs
    requires b.Payload() <= at < b.End()
    ensures Links(bs, mem[at := h], 0, 0)
  {
    ChainDisjoint(bs, HEAP_START, HEAP_END);
    LinksKept(bs, mem, mem[at := h], 0, 0);
  }

  /** A call of the heap: a request, or giving back what request number `ticket` got. */
  datatype Op = Alloc(size: nat) | Release(ticket: nat)

  /** Every request fits a 32-bit word, and whatever is given back was requested before and not
      given back already. */
  ghost predicate Disciplined(ops: seq<Op>) {
    && (forall i :: 0 <= i < |ops| && ops[i].Alloc? ==> ops[i].size < WORD)
    && (forall i :: 0 <= i < |ops| && ops[i].Release? ==>
          ops[i].ticket < i && ops[ops[i].ticket].Alloc? && ops[i] !in ops[..i])
  }

  /** The requests that succeeded and have not been given back. */
  ghost predicate Holding(ops: seq<Op>, ptrs: seq<nat>, t: nat)
    requires |ptrs| == |ops|
  {
    t < |ops| && ops[t].Alloc? && ptrs[t] != 0 && Release(t) !in ops
  }

  /** The used blocks are exactly those of the requests still held, one each, large enough. */
  ghost predicate Accounts(owner: map<nat, Block>, ops: seq<Op>, ptrs: seq<nat>, bs: seq<Block>)
    requires |ptrs| == |ops|
  {
    && (forall t :: t in owner <==> Holding(ops, ptrs, t))
    && (forall t :: t in owner ==> owner[t] in Live(bs))
    && (forall b :: b in Live(bs) ==> exists t :: t in owner && owner[t] == b)
    && (forall t, u :: t in owner && u in owner && t != u ==> owner[t] != owner[u])
    && (forall t :: t in owner ==> owner[t].Payload() == ptrs[t] && owner[t].size >= AlignUp(ops[t].size))
  }

  lemma AccountsAlloc(owner: map<nat, Block>, ops: seq<Op>, ptrs: seq<nat>, bs: seq<Block>, size: nat, b: Block, bs2: seq<Block>)
    requires |ptrs| == |ops| && Accounts(owner, ops, ptrs, bs) && Disciplined(ops + [Alloc(size)])
    requires b !in Live(bs) && Live(bs2) == Live(bs) + {b} && b.size >= AlignUp(size) && b.Payload() != 0
    ensures Accounts(owner[|ops| := b], ops + [Alloc(size)], ptrs + [b.Payload()], bs2)
  {
    hide Live, AlignUp;
    var ops2, ptrs2, owner2 := ops + [Alloc(size)], ptrs + [b.Payload()], owner[|ops| := b];
    assert Release(|ops|) !in ops by {
      NoLaterTicket(ops, size, |ops|);
    }
    forall t: nat
      ensures t in owner2 <==> Holding(ops2, ptrs2, t)
    {
      assert t < |ops| ==> (Holding(ops2, ptrs2, t) <==> Holding(ops, ptrs, t));
    }
    forall c | c in Live(bs2)
      ensures exists t :: t in owner2 && owner2[t] == c
    {
      if c == b {
        assert owner2[|ops|] == b;
      } else {
        var t :| t in owner && owner[t] == c;
        assert owner2[t] == c;
      }
    }
  }

  lemma NoLaterTicket(ops: seq<Op>, size: nat, t: nat)
    requires Disciplined(ops + [Alloc(size)]) && t >= |ops|
    ensures Release(t) !in ops
  {
    assert forall i :: 0 <= i < |ops| ==> ops[i] == (ops + [Alloc(size)])[i];
  }

  lemma AccountsRefused(owner: map<nat, Block>, ops: seq<Op>, ptrs: seq<nat>, bs: seq<Block>, size: nat)
    requires |ptrs| == |ops| && Accounts(owner, ops, ptrs, bs)
    ensures Accounts(owner, ops + [Alloc(size)], ptrs + [0], bs)
  {
    forall t: nat
      ensures Holding(ops + [Alloc(size)], ptrs + [0], t) <==> Holding(ops, ptrs, t)
    {
    }
  }

  lemma AccountsRelease(owner: map<nat, Block>, ops: seq<Op>, ptrs: seq<nat>, bs: seq<Block>, ticket: nat, bs2: seq<Block>)
    requires |ptrs| == |ops| && Accounts(owner, ops, ptrs, bs)
    requires Live(bs2) == if ticket in owner then Live(bs) - {owner[ticket]} else Live(bs)
    ensures Accounts(owner - {ticket}, ops + [Release(ticket)], ptrs + [0], bs2)
  {
    hide Live, AlignUp;
    var ops2, ptrs2, owner2 := ops + [Release(ticket)], ptrs + [0], owner - {ticket};
    forall t: nat
      ensures t in owner2 <==> Holding(ops2, ptrs2, t)
    {
    }
    forall c | c in Live(bs2)
      ensures exists t :: t in owner2 && owner2[t] == c
    {
      var t :| t in owner && owner[t] == c;
      assert t in owner2;
    }
  }

  /** Every disciplined sequence of calls, from an empty heap: the used blocks are always those
      of the requests still held, and once all are given back the heap is one block again. */
  method Run(h: KernelHeap, ops: seq<Op>) returns (ptrs: seq<nat>, ghost owner: map<nat, Block>)
    requires h.Valid() && h.blocks == [Whole] && Disciplined(ops)
    modifies h
    ensures h.Valid() && |ptrs| == |ops| && Accounts(owner, ops, ptrs, h.blocks)
    ensures (forall t: nat :: !Holding(ops, ptrs, t)) ==> h.blocks == [Whole]
  {
    ptrs, owner := [], map[];
    assert Live([Whole]) == {};
    for i := 0 to |ops|
      invariant h.Valid() && |ptrs| == i && Accounts(owner, ops[..i], ptrs, h.blocks)
    {
      assert ops[..i + 1] == ops[..i] + [ops[i]];
      ptrs, owner := Perform(h, ops[..i], ptrs, owner, ops[i]);
    }
    assert ops[..|ops|] == ops;
    if forall t: nat :: !Holding(ops, ptrs, t) {
      assert Live(h.blocks) == {};
      AllFreeIsWhole(h.blocks);
    }
  }

  lemma DisciplinedPrefix(ops: seq<Op>, op: Op)
    requires Disciplined(ops + [op])
    ensures op.Alloc? ==> op.size < WORD
    ensures op.Release? ==> op.ticket < |ops| && ops[op.ticket].Alloc? && op !in ops
  {
    var ops2 := ops + [op];
    assert ops2[|ops|] == op && ops2[..|ops|] == ops;
  }

  method Perform(h: KernelHeap, ghost ops: seq<Op>, ptrs: seq<nat>, ghost owner: map<nat, Block>, op: Op)
    returns (ptrs2: seq<nat>, ghost owner2: map<nat, Block>)
    requires h.Valid() && |ptrs| == |ops| && Accounts(owner, ops, ptrs, h.blocks) && Disciplined(ops + [op])
    modifies h
    ensures h.Valid() && |ptrs2| == |ops| + 1 && Accounts(owner2, ops + [op], ptrs2, h.blocks)
  {
    DisciplinedPrefix(ops, op);
    hide Links, Live, Bytes, Chain, Apart, Disciplined, AlignUp, Split, Accounts;
    match op
    case Alloc(size) =>
      ghost var bs := h.blocks;
      var ptr;
      ghost var k;
      ptr, k := h.Kmalloc(size);
      ptrs2, owner2 := ptrs + [ptr], owner;
      if ptr == 0 {
        AccountsRefused(owner, ops, ptrs, bs, size);
      } else {
        owner2 := owner[|ops| := h.blocks[k]];
        AccountsAlloc(owner, ops, ptrs, bs, size, h.blocks[k], h.blocks);
      }
    case Release(ticket) =>
      GiveBack(h, ops, ptrs, owner, ticket);
      ptrs2, owner2 := ptrs + [0], owner - {ticket};
  }

  method GiveBack(h: KernelHeap, ghost ops: seq<Op>, ptrs: seq<nat>, ghost owner: map<nat, Block>, ticket: nat)
    requires h.Valid() && |ptrs| == |ops| && Accounts(owner, ops, ptrs, h.blocks)
    requires ticket < |ops| && ops[ticket].Alloc? && Release(ticket) !in ops
    modifies h
    ensures h.Valid() && Accounts(owner - {ticket}, ops + [Release(ticket)], ptrs + [0], h.blocks)
  {
    hide Links, Live, Bytes, Chain, Apart, AlignUp;
    ghost var bs, k := h.blocks, 0;
    assert ptrs[ticket] != 0 <==> ticket in owner;
    if ptrs[ticket] != 0 {
      k := LiveIndex(bs, owner[ticket]);
    }
    hide Accounts;
    h.Kfree(ptrs[ticket], k);
    AccountsRelease(owner, ops, ptrs, bs, ticket, h.blocks);
  }

  lemma LiveIndex(bs: seq<Block>, b: Block) returns (k: nat)
    requires b in Live(bs)
    ensures k < |bs| && bs[k] == b && !b.free
  {
    k :| k < |bs| && bs[k] == b;
  }
}
