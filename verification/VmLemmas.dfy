/** How the elementary updates of kernel/frame.c and kernel/paging.c move references, and
    why each group of updates that the kernel performs together keeps the counts exact. */
module VmLemmas {
  import opened VmState

  /** From s to s2 the reference `out` stops designating frame `of`, the reference `into`
      starts designating frame `inf`, and no other reference changes (-1: no such change). */
  ghost predicate Delta(s: State, s2: State, out: Ref, of: int, into: Ref, inf: int)
    requires WellShaped(s) && WellShaped(s2)
  {
    && |s2.refs| == |s.refs|
    && (of >= 0 ==> Holds(s, out, of))
    && (inf >= 0 ==> !Holds(s, into, inf))
    && (forall r, g: nat :: Holds(s2, r, g) <==>
          ((Holds(s, r, g) && !(r == out && g == of)) || (r == into && g == inf)))
  }

  ghost function Adjusted(s: State, of: int, inf: int, g: nat): int
    requires g < |s.refs|
  {
    (s.refs[g] as int) - (if g == of then 1 else 0) + (if g == inf then 1 else 0)
  }

  lemma SetDelta(a: set<Ref>, b: set<Ref>, drop: bool, out: Ref, add: bool, into: Ref)
    requires drop ==> out in a
    requires add ==> into !in a
    requires forall r :: r in b <==> ((r in a && !(drop && r == out)) || (add && r == into))
    ensures |b| == |a| - (if drop then 1 else 0) + (if add then 1 else 0)
  {
    var mid := if drop then a - {out} else a;
    assert b == if add then mid + {into} else mid;
  }

  lemma CountDelta(s: State, s2: State, out: Ref, of: int, into: Ref, inf: int, g: nat)
    requires WellShaped(s) && WellShaped(s2) && Delta(s, s2, out, of, into, inf)
    ensures |RefSet(s2, g)| == |RefSet(s, g)| - (if g == of then 1 else 0) + (if g == inf then 1 else 0)
  {
    hide Holds, RefSet, WellShaped;
    SetDelta(RefSet(s, g), RefSet(s2, g), g == of, out, g == inf, into);
  }

  /** A move of references, matched by the counters, keeps the invariant when the frame
      that gains a reference is not shared with a directory or a table. */
  lemma InvDelta(s: State, s2: State, out: Ref, of: int, into: Ref, inf: int)
    requires Inv(s) && WellShaped(s2) && Delta(s, s2, out, of, into, inf)
    requires AllocOk(s2) && KernelOk(s2) && LayoutOk(s2)
    requires forall g :: 0 <= g < |s.refs| ==> s2.refs[g] == Adjusted(s, of, inf, g)
    requires inf < |s.refs| && (into.Leaf? ==> inf != 0)
    requires inf >= 0 ==> forall r :: Holds(s2, r, inf) && r != into ==> r.Pin? || r.Leaf?
    requires inf >= 0 && (into.Dir? || into.Table?) ==> forall r :: Holds(s2, r, inf) ==> r == into
    ensures Inv(s2)
  {
    hide Holds;
    forall g | 0 <= g < |s2.refs|
      ensures s2.refs[g] == |RefSet(s2, g)|
    {
      CountDelta(s, s2, out, of, into, inf, g);
    }
  }

  lemma CountSetUpdate(b: seq<bool>, f: nat, v: bool)
    requires f < |b|
    ensures CountSet(b[f := v]) == CountSet(b) - (if b[f] then 1 else 0) + (if v then 1 else 0)
  {
    var c := b[f := v];
    if f == |b| - 1 {
      assert c[..|c| - 1] == b[..|b| - 1];
    } else {
      assert c[..|c| - 1] == b[..|b| - 1][f := v];
      CountSetUpdate(b[..|b| - 1], f, v);
    }
  }

  /** An unreferenced frame is named by no directory slot and no table entry. */
  lemma Unreferenced(s: State, f: nat)
    requires Inv(s) && f < |s.refs| && s.refs[f] == 0
    ensures forall r :: !Holds(s, r, f)
    ensures f !in s.spaces && f !in s.pinned && f !in s.kernel
    ensures forall d: nat, i: nat :: Owned(s, d, i) ==> s.tables[d][i].frame != f
  {
    assert RefSet(s, f) == {};
    assert !Holds(s, Pin(f), f) && !Holds(s, Dir(f), f);
    forall d: nat, i: nat | Owned(s, d, i)
      ensures s.tables[d][i].frame != f
    {
      assert !Holds(s, Table(d, i), f);
    }
  }

  /** Directory d and everything reached through its own tables is the same. */
  ghost predicate SameSpace(s: State, s2: State, d: nat)
    requires WellShaped(s) && WellShaped(s2)
  {
    && d < |s.tables| && d < |s2.tables|
    && s2.tables[d] == s.tables[d]
    && (forall i, j :: Walk(s2, d, i, j) == Walk(s, d, i, j))
  }

  /** The same spaces, tables, contents and kernel references: what a failed operation leaves. */
  ghost predicate SameMemory(s: State, s2: State)
    requires WellShaped(s) && WellShaped(s2)
  {
    && s2.spaces == s.spaces && s2.pinned == s.pinned && s2.kernel == s.kernel
    && |s2.refs| == |s.refs| && s2.pages == s.pages
    && forall d :: Root(s.spaces, d) ==> SameSpace(s, s2, d)
  }

  lemma SameMemoryRefl(s: State)
    requires WellShaped(s) && KERNEL_DIR < |s.tables|
    ensures SameMemory(s, s)
  {
  }

  lemma SameMemoryTrans(s0: State, s1: State, s2: State)
    requires WellShaped(s0) && WellShaped(s1) && WellShaped(s2)
    requires forall d :: Root(s0.spaces, d) ==> SameSpace(s0, s1, d)
    requires forall d :: Root(s0.spaces, d) ==> SameSpace(s1, s2, d)
    ensures forall d :: Root(s0.spaces, d) ==> SameSpace(s0, s2, d)
  {
    forall d | Root(s0.spaces, d)
      ensures SameSpace(s0, s2, d)
    {
      assert SameSpace(s0, s1, d) && SameSpace(s1, s2, d);
    }
  }

  lemma OthersSame(s0: State, s1: State, s2: State, d: nat)
    requires WellShaped(s0) && WellShaped(s1) && WellShaped(s2)
    requires forall c :: Root(s0.spaces, c) && c != d ==> SameSpace(s0, s1, c)
    requires forall c :: Root(s0.spaces, c) && c != d ==> SameSpace(s1, s2, c)
    ensures forall c :: Root(s0.spaces, c) && c != d ==> SameSpace(s0, s2, c)
  {
    forall c | Root(s0.spaces, c) && c != d
      ensures SameSpace(s0, s2, c)
    {
      assert SameSpace(s0, s1, c) && SameSpace(s1, s2, c);
    }
  }

  /** Exact counts are determined by the references, so equal memory means equal counters,
      equal bitmaps and equal used counts. */
  lemma CountsDetermined(s: State, s2: State)
    requires Inv(s) && Inv(s2) && SameMemory(s, s2)
    ensures s2.refs == s.refs && s2.bitmap == s.bitmap && s2.used == s.used
  {
    SpacesSame(s, s2);
    forall f | 0 <= f < |s.refs|
      ensures s2.refs[f] == s.refs[f] && s2.bitmap[f] == s.bitmap[f]
    {
      assert RefSet(s, f) == RefSet(s2, f);
    }
    assert s2.bitmap == s.bitmap;
  }

  /** With every directory and walk unchanged, the references kept in tables are too. */
  lemma SpacesSame(s: State, s2: State)
    requires Inv(s) && WellShaped(s2) && s2.spaces == s.spaces
    requires forall d :: Root(s.spaces, d) ==> SameSpace(s, s2, d)
    ensures forall r: Ref, g: nat :: !r.Pin? ==> (Holds(s2, r, g) <==> Holds(s, r, g))
    ensures forall r: Ref :: WritableRef(s2, r) && Owned(s, r.d, r.i) ==> WritableRef(s, r)
    ensures LayoutOk(s2)
  {
    forall r: Ref, g: nat | !r.Pin?
      ensures Holds(s2, r, g) <==> Holds(s, r, g)
    {
      assert r.d in s.spaces ==> SameSpace(s, s2, r.d);
    }
    forall d: nat, i: nat, j: nat
      ensures Owned(s2, d, i) <==> Owned(s, d, i)
      ensures Root(s.spaces, d) ==> s2.tables[d] == s.tables[d] && Walk(s2, d, i, j) == Walk(s, d, i, j)
    {
      assert Root(s.spaces, d) ==> SameSpace(s, s2, d);
    }
  }

  // ---------- single words ----------

  /** Rewriting the words of a frame that is neither a directory, an owned table nor a
      kernel frame changes no walk. */
  lemma WriteLooseTable(s: State, s2: State, f: nat)
    requires Inv(s) && WellShaped(s2) && f < |s.tables|
    requires s2.spaces == s.spaces && s2.kernel == s.kernel && |s2.tables| == |s.tables|
    requires f !in s.spaces && f !in s.kernel
    requires forall d: nat, i: nat :: Owned(s, d, i) ==> s.tables[d][i].frame != f
    requires forall g :: 0 <= g < |s.tables| && g != f ==> s2.tables[g] == s.tables[g]
    ensures forall d :: Root(s.spaces, d) ==> SameSpace(s, s2, d)
  {
    forall d: nat, i: nat, j: nat | Root(s.spaces, d)
      ensures s2.tables[d] == s.tables[d] && Walk(s2, d, i, j) == Walk(s, d, i, j)
    {
      if i < ENTRIES && s.tables[d][i].present {
        assert Owned(s, d, i) || SharedSlot(s, d, i);
      }
    }
  }

  /** One entry of an owned table is rewritten: only the reference it stands for moves. */
  lemma WriteLeaf(s: State, s2: State, d: nat, i: nat, j: nat, e: Entry)
    requires Inv(s) && WellShaped(s2) && Owned(s, d, i) && j < ENTRIES
    requires s2.spaces == s.spaces && s2.kernel == s.kernel && |s2.tables| == |s.tables|
    requires s.tables[d][i].frame < |s.tables|
    requires s2.tables == s.tables[s.tables[d][i].frame := s.tables[s.tables[d][i].frame][j := e]]
    ensures s.tables[d][i].frame !in s.spaces && s.tables[d][i].frame !in s.kernel
    ensures forall c: nat :: Root(s.spaces, c) ==> s2.tables[c] == s.tables[c]
    ensures forall a: nat, b: nat :: Owned(s2, a, b) <==> Owned(s, a, b)
    ensures forall c: nat, a: nat, b: nat :: Root(s.spaces, c) && !(c == d && a == i && b == j) ==>
              Walk(s2, c, a, b) == Walk(s, c, a, b)
    ensures Walk(s2, d, i, j) == e
  {
    var t := s.tables[d][i].frame;
    assert Holds(s, Table(d, i), t);
    assert t in s.spaces ==> Holds(s, Dir(t), t);
    assert t in s.kernel ==> Holds(s, Pin(t), t);
    assert forall c :: Root(s.spaces, c) ==> c != t;
    forall c: nat, a: nat, b: nat | Root(s.spaces, c) && !(c == d && a == i && b == j)
      ensures Walk(s2, c, a, b) == Walk(s, c, a, b)
    {
      if a < ENTRIES && s.tables[c][a].present {
        assert Owned(s, c, a) || SharedSlot(s, c, a);
        if Owned(s, c, a) && s.tables[c][a].frame == t {
          assert Holds(s, Table(c, a), t);
        }
      }
    }
  }

  // ---------- steps of the kernel ----------

  /** A frame just taken from the allocator, held by the code that took it. */
  ghost predicate Fresh(s: State, f: nat)
    requires WellShaped(s)
  {
    f in s.pinned && f !in s.kernel && f < |s.refs| && forall r :: Holds(s, r, f) ==> r == Pin(f)
  }

  ghost function Taken(s: State, f: nat, words: seq<Entry>): State
    requires WellShaped(s) && f < |s.refs|
  {
    s.(bitmap := s.bitmap[f := true], refs := s.refs[f := 1], used := s.used + 1,
       tables := s.tables[f := words], pinned := s.pinned + {f})
  }

  /** Allocation, with or without filling the frame as a table. */
  lemma TakeFrame(s: State, f: nat, words: seq<Entry>)
    requires Inv(s) && f < |s.refs| && s.refs[f] == 0 && |words| == ENTRIES
    ensures Inv(Taken(s, f, words)) && Fresh(Taken(s, f, words), f)
    ensures f !in s.pinned && f !in s.spaces
    ensures forall d: nat :: Fresh(s, d) ==> Fresh(Taken(s, f, words), d)
    ensures forall d :: Root(s.spaces, d) ==> SameSpace(s, Taken(s, f, words), d)
    ensures Unshared(s) ==> Unshared(Taken(s, f, words))
  {
    hide Walk, RefSet, CountSet;
    var s2 := Taken(s, f, words);
    Unreferenced(s, f);
    WriteLooseTable(s, s2, f);
    CountSetUpdate(s.bitmap, f, true);
    SpacesSame(s, s2);
    InvDelta(s, s2, Pin(f), -1, Pin(f), f);
  }

  ghost function Released(s: State, f: nat): State
    requires WellShaped(s) && f < |s.refs| && s.refs[f] > 0 && s.used > 0
  {
    s.(refs := s.refs[f := s.refs[f] - 1],
       bitmap := s.bitmap[f := s.refs[f] > 1],
       used := if s.refs[f] > 1 then s.used else s.used - 1)
  }

  lemma ReleaseKeepsAllocator(s: State, f: nat)
    requires WellShaped(s) && AllocOk(s) && f < |s.refs| && s.refs[f] > 0
    ensures s.used > 0 && WellShaped(Released(s, f)) && AllocOk(Released(s, f))
  {
    CountSetUpdate(s.bitmap, f, s.refs[f] > 1);
    CountSetUpdate(s.bitmap, f, false);
  }

  /** A held frame has a positive count, and the frames with a second holder at least two. */
  lemma HeldIsCounted(s: State, r: Ref, f: nat)
    requires Inv(s) && Holds(s, r, f)
    ensures f < |s.refs| && s.refs[f] > 0 && s.used > 0 && s.bitmap[f]
    ensures s.refs[f] == 1 ==> forall q :: Holds(s, q, f) ==> q == r
    ensures (exists q :: Holds(s, q, f) && q != r) ==> s.refs[f] >= 2
  {
    hide Holds;
    var rs := RefSet(s, f);
    assert r in rs;
    ReleaseKeepsAllocator(s, f);
    forall q | Holds(s, q, f) && q != r
      ensures s.refs[f] >= 2
    {
      assert {q, r} <= rs;
      assert |{q, r}| == 2;
      SubsetCard({q, r}, rs);
    }
  }

  lemma SubsetCard(a: set<Ref>, b: set<Ref>)
    requires a <= b
    ensures |a| <= |b|
  {
    assert b == a + (b - a);
  }

  lemma DropPin(s: State, f: nat)
    requires Inv(s) && f in s.pinned && f !in s.kernel
    ensures f < |s.refs| && s.refs[f] > 0 && s.used > 0
    ensures Inv(Released(s, f).(pinned := s.pinned - {f}))
    ensures forall d :: Root(s.spaces, d) ==> SameSpace(s, Released(s, f).(pinned := s.pinned - {f}), d)
    ensures Unshared(s) ==> Unshared(Released(s, f).(pinned := s.pinned - {f}))
  {
    hide RefSet, CountSet;
    HeldIsCounted(s, Pin(f), f);
    ReleaseKeepsAllocator(s, f);
    var s2 := Released(s, f).(pinned := s.pinned - {f});
    SpacesSame(s, s2);
    InvDelta(s, s2, Pin(f), f, Pin(f), -1);
  }

  lemma PinToDir(s: State, f: nat)
    requires Inv(s) && Fresh(s, f)
    requires forall i :: 0 <= i < ENTRIES ==> s.tables[f][i] == BLANK
    ensures Inv(s.(pinned := s.pinned - {f}, spaces := s.spaces + {f}))
    ensures forall d :: Root(s.spaces, d) ==> SameSpace(s, s.(pinned := s.pinned - {f}, spaces := s.spaces + {f}), d)
    ensures Unshared(s) ==> Unshared(s.(pinned := s.pinned - {f}, spaces := s.spaces + {f}))
    ensures forall g: nat :: Fresh(s, g) && g != f ==> Fresh(s.(pinned := s.pinned - {f}, spaces := s.spaces + {f}), g)
  {
    hide RefSet, CountSet;
    var s2 := s.(pinned := s.pinned - {f}, spaces := s.spaces + {f});
    assert !Holds(s, Dir(f), f);
    SameWalk(s, s2);
    assert forall i: nat, j: nat :: Walk(s2, f, i, j) == BLANK;
    hide Walk;
    InvDelta(s, s2, Pin(f), f, Dir(f), f);
  }

  lemma SameWalk(s: State, s2: State)
    requires WellShaped(s) && WellShaped(s2) && s2.tables == s.tables
    ensures forall d, i, j :: Walk(s2, d, i, j) == Walk(s, d, i, j)
  {
  }

  /** A directory slot of a space is rewritten. */
  lemma WriteSlot(s: State, s2: State, d: nat, i: nat, e: Entry)
    requires Inv(s) && WellShaped(s2) && d in s.spaces && i < ENTRIES
    requires s2.spaces == s.spaces && s2.kernel == s.kernel
    requires s2.tables == s.tables[d := s.tables[d][i := e]]
    ensures d != KERNEL_DIR
    ensures forall a: nat, b: nat :: !(a == d && b == i) ==> (Owned(s2, a, b) <==> Owned(s, a, b))
    ensures forall c: nat, a: nat, b: nat :: Root(s.spaces, c) && !(c == d && a == i) ==>
              Walk(s2, c, a, b) == Walk(s, c, a, b)
  {
    assert Holds(s, Dir(d), d);
    assert d in s.kernel ==> Holds(s, Pin(d), d);
    forall c: nat, a: nat, b: nat | Root(s.spaces, c) && !(c == d && a == i)
      ensures Walk(s2, c, a, b) == Walk(s, c, a, b)
    {
      if a < ENTRIES && s.tables[c][a].present {
        assert Owned(s, c, a) || SharedSlot(s, c, a);
        if Owned(s, c, a) && s.tables[c][a].frame == d {
          assert Holds(s, Table(c, a), d);
        }
      }
    }
  }
}
