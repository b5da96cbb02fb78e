/** The stages of paging_clone_directory, as relations between the state before the call and
    the state reached, and what they give when the clone completes or is abandoned. */
module VmClone {
  import opened VmState
  import opened VmLemmas
  import opened VmSteps

  ghost predicate Done(a: nat, b: nat, i: nat, j: nat) { a < i || (a == i && b < j) }

  /** What the clone makes of a parent's entry: a writable page becomes copy-on-write. */
  function CowOf(e: Entry): Entry {
    if UserLeaf(e) && (e.writable || e.cow) then e.(writable := false, cow := true) else e
  }

  /** The clone nd has been added to the spaces of s0 and nothing else was added. */
  ghost predicate Joined(s0: State, s: State, nd: nat)
    requires WellShaped(s0) && WellShaped(s)
  {
    && s.spaces == s0.spaces + {nd} && nd !in s0.spaces && nd != KERNEL_DIR
    && s.pinned == s0.pinned && s.kernel == s0.kernel && s.pages == s0.pages
    && |s.refs| == |s0.refs|
  }

  /** Of the first i slots of the clone those that the source does not own are the source's: the
      supervisor's tables are shared. */
  ghost predicate SupervisorShared(s0: State, s: State, src: nat, nd: nat, i: nat)
    requires WellShaped(s0) && WellShaped(s)
  {
    && src in s0.spaces && nd in s.spaces
    && forall a :: 0 < a < i && a < ENTRIES && !Owned(s0, src, a) ==> s.tables[nd][a] == SharedWord(s0.tables[src][a])
  }

  ghost function SharedWord(e: Entry): Entry { if e.present then e else BLANK }

  lemma SharedStays(s0: State, s: State, s2: State, src: nat, nd: nat, i: nat)
    requires WellShaped(s0) && WellShaped(s) && WellShaped(s2) && SupervisorShared(s0, s, src, nd, i)
    requires s2.spaces == s.spaces && s2.tables[nd] == s.tables[nd]
    ensures SupervisorShared(s0, s2, src, nd, i)
  {
    hide Owned, SharedWord;
  }

  /** Phase 1 up to slot i: tables allocated, no entry copied, the parent untouched. */
  ghost predicate Phase1(s0: State, s: State, src: nat, nd: nat, i: nat)
    requires WellShaped(s0) && WellShaped(s)
  {
    && Joined(s0, s, nd)
    && (forall c :: Root(s0.spaces, c) ==> SameSpace(s0, s, c))
    && (forall a: nat :: Owned(s, nd, a) <==> a < i && Owned(s0, src, a))
    && (forall a :: i <= a < ENTRIES ==> s.tables[nd][a] == BLANK)
    && (forall a: nat, b: nat :: Owned(s, nd, a) ==> !Walk(s, nd, a, b).present)
    && SupervisorShared(s0, s, src, nd, i)
  }

  /** Phase 2a up to (i, j): entries copied with their frames retained, the parent untouched. */
  ghost predicate Phase2(s0: State, s: State, src: nat, nd: nat, i: nat, j: nat)
    requires WellShaped(s0) && WellShaped(s)
  {
    && Joined(s0, s, nd)
    && (forall c :: Root(s0.spaces, c) ==> SameSpace(s0, s, c))
    && (forall a: nat :: Owned(s, nd, a) <==> Owned(s0, src, a))
    && (forall a: nat, b: nat :: Owned(s, nd, a) ==>
          if Done(a, b, i, j) && Walk(s0, src, a, b).present
          then Walk(s, nd, a, b) == Walk(s0, src, a, b)
          else !Walk(s, nd, a, b).present)
    && SupervisorShared(s0, s, src, nd, ENTRIES)
  }

  /** Phase 2b up to (i, j): writable pages of parent and clone turned copy-on-write. */
  ghost predicate Phase3(s0: State, s: State, src: nat, nd: nat, i: nat, j: nat)
    requires WellShaped(s0) && WellShaped(s)
  {
    && Joined(s0, s, nd)
    && (forall c :: Root(s0.spaces, c) && c != src ==> SameSpace(s0, s, c))
    && src in s0.spaces && s.tables[src] == s0.tables[src]
    && (forall a: nat :: Owned(s, nd, a) <==> Owned(s0, src, a))
    && (forall a: nat, b: nat ::
          Walk(s, src, a, b) == if Done(a, b, i, j) then CowOf(Walk(s0, src, a, b)) else Walk(s0, src, a, b))
    && (forall a: nat, b: nat :: Owned(s, nd, a) ==>
          if Walk(s0, src, a, b).present
          then Walk(s, nd, a, b) == if Done(a, b, i, j) then CowOf(Walk(s0, src, a, b)) else Walk(s0, src, a, b)
          else !Walk(s, nd, a, b).present)
    && SupervisorShared(s0, s, src, nd, ENTRIES)
  }

  /** The clone is complete: every page of the parent is a page of the clone, both read the
      same frame and neither may write it; no other space changed. */
  ghost predicate Cloned(s0: State, s: State, src: nat, nd: nat)
    requires WellShaped(s0) && WellShaped(s)
  {
    && Joined(s0, s, nd)
    && (forall c :: Root(s0.spaces, c) && c != src ==> SameSpace(s0, s, c))
    && (forall a: nat, b: nat :: Walk(s, src, a, b) == CowOf(Walk(s0, src, a, b)))
    && (forall a: nat, b: nat :: UserLeaf(Walk(s, nd, a, b)) <==> UserLeaf(Walk(s0, src, a, b)))
    && (forall a: nat, b: nat :: UserLeaf(Walk(s, nd, a, b)) ==> Walk(s, nd, a, b) == CowOf(Walk(s0, src, a, b)))
    && SupervisorShared(s0, s, src, nd, ENTRIES)
  }

  /** A clone is total: what the source had writable both read copy-on-write now, every other user
      page both map as it was, nothing else is mapped for users, and the supervisor's slots are the
      source's. */
  lemma ClonedMeans(s0: State, s: State, src: nat, nd: nat, a: nat, b: nat)
    requires WellShaped(s0) && WellShaped(s) && Cloned(s0, s, src, nd) && a < 1024 && b < 1024
    ensures var e := Walk(s0, src, a, b);
      && (e.present && e.user && (e.writable || e.cow) ==>
            Walk(s, src, a, b) == Walk(s, nd, a, b) == Entry(e.frame, true, false, true, true))
      && (e.present && e.user && !e.writable && !e.cow ==> Walk(s, src, a, b) == Walk(s, nd, a, b) == e)
      && (!(e.present && e.user) ==>
            Walk(s, src, a, b) == e && !(Walk(s, nd, a, b).present && Walk(s, nd, a, b).user))
    ensures src < |s0.tables| && nd < |s.tables|
    ensures var word := s0.tables[src][a]; a > 0 && word.present && !word.user ==> s.tables[nd][a] == word
  {
  }

  lemma Finish(s0: State, s: State, src: nat, nd: nat)
    requires Inv(s0) && Inv(s) && src in s0.spaces && Phase3(s0, s, src, nd, ENTRIES, 0)
    ensures Cloned(s0, s, src, nd)
  {
    forall a: nat, b: nat
      ensures Walk(s, src, a, b) == CowOf(Walk(s0, src, a, b))
      ensures UserLeaf(Walk(s, nd, a, b)) <==> UserLeaf(Walk(s0, src, a, b))
      ensures UserLeaf(Walk(s, nd, a, b)) ==> Walk(s, nd, a, b) == CowOf(Walk(s0, src, a, b))
    {
      if UserLeaf(Walk(s0, src, a, b)) {
        UserEntryOwned(s0, src, a, b);
      }
      if UserLeaf(Walk(s, nd, a, b)) {
        UserEntryOwned(s, nd, a, b);
      }
    }
  }

  /** After the clone no writable frame is shared, given that none was before. */
  lemma ClonedUnshared(s0: State, s: State, src: nat, nd: nat)
    requires Inv(s0) && Unshared(s0) && Inv(s) && src in s0.spaces && Cloned(s0, s, src, nd)
    ensures Unshared(s)
  {
    hide Exact, Tallied, KernelOk, LayoutOk;
    forall r1: Ref, r2: Ref, f: nat | Holds(s, r1, f) && Holds(s, r2, f) && WritableRef(s, r1)
      ensures r1 == r2
    {
      assert r1.d in s0.spaces && r1.d != src && r1.d != nd;
      assert SameSpace(s0, s, r1.d);
      assert Holds(s0, r1, f) && WritableRef(s0, r1);
      WasHeld(s0, s, src, nd, r1, r2, f);
    }
  }

  /** A reference that exists after the clone to a frame that a third space maps existed before. */
  lemma WasHeld(s0: State, s: State, src: nat, nd: nat, r1: Ref, r: Ref, f: nat)
    requires Inv(s0) && Inv(s) && src in s0.spaces && Cloned(s0, s, src, nd)
    requires Holds(s, r, f) && r1.Leaf? && r1.d != src && Holds(s0, r1, f) && WritableRef(s0, r1) && Unshared(s0)
    requires Holds(s, r1, f)
    ensures Holds(s0, r, f)
  {
    match r
    case Pin(_) =>
    case Dir(_) =>
    case Table(_, _) =>
    case Leaf(d, i, j) =>
      if d == nd || d == src {
        UserEntryOwned(s0, src, i, j);
        assert Holds(s0, Leaf(src, i, j), f);
      } else {
        assert SameSpace(s0, s, d);
      }
  }

  /** An abandoned clone leaves the memory it found. */
  lemma Abandoned(s0: State, s: State)
    requires Inv(s0) && Unshared(s0) && Inv(s) && SameMemory(s0, s)
    ensures Unshared(s)
    ensures s.refs == s0.refs && s.bitmap == s0.bitmap && s.used == s0.used
  {
    CountsDetermined(s0, s);
    SpacesSame(s0, s);
    forall r1: Ref, r2: Ref, f: nat | Holds(s, r1, f) && Holds(s, r2, f) && WritableRef(s, r1)
      ensures r1 == r2
    {
      assert Holds(s0, r1, f) && Holds(s0, r2, f) && WritableRef(s0, r1);
    }
  }

  /** One more slot in phase 1: not present, shared, or given a fresh table. */
  lemma Phase1Step(s0: State, s: State, m: State, s2: State, src: nat, nd: nat, i: nat, e: Entry)
    requires WellShaped(s0) && WellShaped(s) && WellShaped(m) && WellShaped(s2)
    requires src in s0.spaces && Phase1(s0, s, src, nd, i) && i < ENTRIES
    requires m.spaces == s.spaces && m.kernel == s.kernel && |m.refs| == |s.refs|
    requires forall c :: Root(s.spaces, c) ==> SameSpace(s, m, c)
    requires s2.pinned == s.pinned && s2.pages == s.pages
    requires OnlySlot(m, s2, nd, i, e)
    requires Owned(s2, nd, i) <==> Owned(s0, src, i)
    requires Owned(s2, nd, i) ==> e.frame < |s2.tables| && s2.tables[e.frame] == BlankTable()
    requires i > 0 && !Owned(s0, src, i) ==> e == SharedWord(s0.tables[src][i])
    ensures Phase1(s0, s2, src, nd, i + 1)
  {
    forall c | Root(s0.spaces, c)
      ensures SameSpace(s0, s2, c)
    {
      assert SameSpace(s0, s, c) && Root(s.spaces, c) && SameSpace(s, m, c) && c != nd;
    }
    assert Root(s.spaces, nd) && SameSpace(s, m, nd);
    forall a: nat
      ensures a != i ==> (Owned(s2, nd, a) <==> Owned(s, nd, a))
    {
    }
    forall a: nat, b: nat | Owned(s2, nd, a)
      ensures !Walk(s2, nd, a, b).present
    {
      if a != i {
        assert Walk(s2, nd, a, b) == Walk(s, nd, a, b);
      } else if b < ENTRIES {
        assert s2.tables[e.frame][b] == BlankTable()[b];
      }
    }
  }

  /** One more entry in phase 2a. */
  lemma Phase2Step(s0: State, s: State, s2: State, src: nat, nd: nat, i: nat, j: nat, e: Entry)
    requires Inv(s0) && Inv(s) && Inv(s2) && src in s0.spaces && Phase2(s0, s, src, nd, i, j)
    requires s2.spaces == s.spaces && s2.pinned == s.pinned && s2.pages == s.pages && s2.kernel == s.kernel
    requires Owned(s0, src, i) && j < ENTRIES
    requires OnlyLeaf(s, s2, nd, i, j, e)
    requires if Walk(s0, src, i, j).present then e == Walk(s0, src, i, j) else !e.present
    ensures Phase2(s0, s2, src, nd, i, j + 1)
  {
    hide SupervisorShared;
    assert Root(s.spaces, nd);
    SharedStays(s0, s, s2, src, nd, ENTRIES);
    forall c | Root(s0.spaces, c)
      ensures SameSpace(s0, s2, c)
    {
      assert SameSpace(s0, s, c) && Root(s.spaces, c) && c != nd;
    }
    assert Root(s.spaces, nd);
  }

  /** One more entry in phase 2b: the parent's and the clone's entry are rewritten. */
  lemma Phase3Step(s0: State, s: State, m: State, s2: State, src: nat, nd: nat, i: nat, j: nat, e: Entry)
    requires Inv(s0) && Inv(s) && Inv(m) && Inv(s2) && Phase3(s0, s, src, nd, i, j)
    requires m.spaces == s.spaces && m.pinned == s.pinned && m.pages == s.pages && m.kernel == s.kernel
    requires s2.spaces == m.spaces && s2.pinned == m.pinned && s2.pages == m.pages && s2.kernel == m.kernel
    requires Owned(s0, src, i) && j < ENTRIES && Walk(s0, src, i, j).present
    requires OnlyLeaf(s, m, src, i, j, e) && OnlyLeaf(m, s2, nd, i, j, e)
    requires e == CowOf(Walk(s0, src, i, j))
    ensures Phase3(s0, s2, src, nd, i, j + 1)
  {
    forall c | Root(s0.spaces, c) && c != src
      ensures SameSpace(s0, s2, c)
    {
      assert SameSpace(s0, s, c) && Root(s.spaces, c) && c != nd;
    }
    assert Root(s.spaces, nd) && Root(s.spaces, src);
  }

  lemma AllSame(s: State)
    requires Inv(s)
    ensures forall c :: Root(s.spaces, c) ==> SameSpace(s, s, c)
  {
  }

  /** With the clone gone again, what was there before it is the same. */
  lemma ClonedAway(s0: State, s: State, s2: State, nd: nat)
    requires WellShaped(s0) && WellShaped(s) && WellShaped(s2) && Joined(s0, s, nd)
    requires forall c :: Root(s0.spaces, c) ==> SameSpace(s0, s, c)
    requires s2.spaces == s.spaces - {nd} && forall c :: Root(s2.spaces, c) ==> SameSpace(s, s2, c)
    requires s2.pinned == s.pinned && s2.kernel == s.kernel && s2.pages == s.pages && |s2.refs| == |s.refs|
    ensures SameMemory(s0, s2)
  {
    assert s2.spaces == s0.spaces;
    SameMemoryTrans(s0, s, s2);
  }

  lemma Phase1Ends(s0: State, s: State, src: nat, nd: nat)
    requires WellShaped(s0) && WellShaped(s) && Phase1(s0, s, src, nd, ENTRIES)
    ensures Phase2(s0, s, src, nd, 0, 0)
  {
  }

  lemma Phase2NextSlot(s0: State, s: State, src: nat, nd: nat, i: nat, j: nat)
    requires WellShaped(s0) && WellShaped(s) && Phase2(s0, s, src, nd, i, j)
    requires j == ENTRIES || !Owned(s, nd, i)
    ensures Phase2(s0, s, src, nd, i + 1, 0)
  {
  }

  lemma Phase2Ends(s0: State, s: State, src: nat, nd: nat)
    requires WellShaped(s0) && WellShaped(s) && src in s0.spaces && Phase2(s0, s, src, nd, ENTRIES, 0)
    ensures Phase3(s0, s, src, nd, 0, 0)
  {
    assert Root(s0.spaces, src) && SameSpace(s0, s, src);
  }

  lemma Phase3NextSlot(s0: State, s: State, src: nat, nd: nat, i: nat, j: nat)
    requires Inv(s0) && WellShaped(s) && Phase3(s0, s, src, nd, i, j)
    requires j == ENTRIES || !Owned(s, nd, i)
    ensures Phase3(s0, s, src, nd, i + 1, 0)
  {
    forall b: nat | b >= j
      ensures CowOf(Walk(s0, src, i, b)) == Walk(s0, src, i, b)
    {
      if UserLeaf(Walk(s0, src, i, b)) {
        UserEntryOwned(s0, src, i, b);
      }
    }
  }

  lemma Phase2Joined(s0: State, s: State, src: nat, nd: nat, i: nat, j: nat)
    requires WellShaped(s0) && WellShaped(s) && Phase2(s0, s, src, nd, i, j)
    ensures Joined(s0, s, nd) && forall c :: Root(s0.spaces, c) ==> SameSpace(s0, s, c)
  {
  }

  /** The fresh directory has become a space: phase 1 begins. */
  lemma CloneStarts(s0: State, s1: State, s: State, src: nat, nd: nat)
    requires Inv(s0) && src in s0.spaces && nd < |s0.refs| && s0.refs[nd] == 0
    requires s1 == Taken(s0, nd, BlankTable()) && WellShaped(s1)
    requires s == s1.(spaces := s0.spaces + {nd}, pinned := s1.pinned - {nd}) && WellShaped(s)
    requires forall c :: Root(s0.spaces, c) ==> SameSpace(s0, s1, c)
    requires forall c :: Root(s0.spaces, c) ==> SameSpace(s1, s, c)
    ensures Phase1(s0, s, src, nd, 0)
  {
    Unreferenced(s0, nd);
    SameMemoryTrans(s0, s1, s);
    assert s.pinned == s0.pinned;
    forall a | 0 <= a < ENTRIES
      ensures s.tables[nd][a] == BLANK
    {
      assert s.tables[nd][a] == BlankTable()[a];
    }
  }
}
