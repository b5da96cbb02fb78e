/** The groups of updates that kernel/paging.c performs together, as steps on states.  Each
    step keeps every count exact. */
module VmSteps {
  import opened VmState
  import opened VmLemmas

  ghost function WithLeaf(s: State, d: nat, i: nat, j: nat, e: Entry): (s2: State)
    requires WellShaped(s) && d < |s.tables| && i < ENTRIES && j < ENTRIES
    requires s.tables[d][i].frame < |s.tables|
    ensures WellShaped(s2)
  {
    var t := s.tables[d][i].frame;
    s.(tables := s.tables[t := s.tables[t][j := e]])
  }

  /** Only the entry at (d, i, j) differs between the two states' page tables. */
  ghost predicate OnlyLeaf(s: State, s2: State, d: nat, i: nat, j: nat, e: Entry)
    requires WellShaped(s) && WellShaped(s2)
  {
    && s2.spaces == s.spaces && s2.kernel == s.kernel && |s2.refs| == |s.refs|
    && (forall c: nat :: Root(s.spaces, c) ==> s2.tables[c] == s.tables[c])
    && (forall a: nat, b: nat :: Owned(s2, a, b) <==> Owned(s, a, b))
    && (forall c: nat, a: nat, b: nat :: Root(s.spaces, c) && !(c == d && a == i && b == j) ==>
          Walk(s2, c, a, b) == Walk(s, c, a, b))
    && Walk(s2, d, i, j) == e
  }

  /** What a rewritten entry does to the references. */
  lemma LeafMoves(s: State, s2: State, d: nat, i: nat, j: nat, e: Entry)
    requires Inv(s) && WellShaped(s2) && Owned(s, d, i) && j < ENTRIES
    requires s.tables[d][i].frame < |s.tables|
    requires s2.tables == WithLeaf(s, d, i, j, e).tables
    requires s2.spaces == s.spaces && s2.kernel == s.kernel && |s2.refs| == |s.refs|
    requires s.kernel <= s2.pinned
    requires !e.present ==> e.frame == 0
    requires e.present ==> (e.user <==> i != 0)
    ensures OnlyLeaf(s, s2, d, i, j, e)
    ensures forall r: Ref, g: nat :: r != Leaf(d, i, j) && !r.Pin? ==> (Holds(s2, r, g) <==> Holds(s, r, g))
    ensures forall g: nat :: Holds(s2, Leaf(d, i, j), g) <==> UserLeaf(e) && e.frame == g
    ensures KernelOk(s2) && LayoutOk(s2)
  {
    WriteLeaf(s, s2, d, i, j, e);
    forall r: Ref, g: nat | r != Leaf(d, i, j) && !r.Pin?
      ensures Holds(s2, r, g) <==> Holds(s, r, g)
    {
    }
  }

  /** A fresh frame is entered into an unused entry (the end of paging_map_page_in_directory). */
  lemma AttachLeaf(s: State, d: nat, i: nat, j: nat, e: Entry)
    requires Inv(s) && Owned(s, d, i) && j < ENTRIES && !UserLeaf(Walk(s, d, i, j))
    requires UserLeaf(e) && Fresh(s, e.frame) && i != 0
    ensures s.tables[d][i].frame < |s.tables|
    ensures var s2 := WithLeaf(s, d, i, j, e).(pinned := s.pinned - {e.frame});
            && Inv(s2) && OnlyLeaf(s, s2, d, i, j, e)
            && (Unshared(s) ==> Unshared(s2))
  {
    hide RefSet, CountSet;
    assert Holds(s, Table(d, i), s.tables[d][i].frame);
    var s2 := WithLeaf(s, d, i, j, e).(pinned := s.pinned - {e.frame});
    LeafMoves(s, s2, d, i, j, e);
    hide Walk;
    InvDelta(s, s2, Pin(e.frame), e.frame, Leaf(d, i, j), e.frame);
  }

  ghost function Retained(s: State, f: nat): State
    requires WellShaped(s) && f < |s.refs|
  {
    s.(refs := s.refs[f := s.refs[f] + 1])
  }

  /** A frame that some entry already maps gains a second entry (phase 2a of the clone). */
  lemma ShareLeaf(s: State, d: nat, i: nat, j: nat, e: Entry, r: Ref)
    requires Inv(s) && Owned(s, d, i) && j < ENTRIES && !UserLeaf(Walk(s, d, i, j))
    requires UserLeaf(e) && r.Leaf? && Holds(s, r, e.frame) && i != 0
    requires e.frame < |s.refs| && s.refs[e.frame] < MAX_REFS
    ensures s.tables[d][i].frame < |s.tables|
    ensures var s2 := Retained(WithLeaf(s, d, i, j, e), e.frame);
            Inv(s2) && OnlyLeaf(s, s2, d, i, j, e)
  {
    hide RefSet, CountSet;
    assert Holds(s, Table(d, i), s.tables[d][i].frame);
    HeldIsCounted(s, r, e.frame);
    var s2 := Retained(WithLeaf(s, d, i, j, e), e.frame);
    LeafMoves(s, s2, d, i, j, e);
    hide Walk;
    InvDelta(s, s2, Leaf(d, i, j), -1, Leaf(d, i, j), e.frame);
  }

  /** A user entry is cleared and its frame released. */
  lemma DropLeaf(s: State, d: nat, i: nat, j: nat)
    requires Inv(s) && Owned(s, d, i) && j < ENTRIES && UserLeaf(Walk(s, d, i, j))
    ensures s.tables[d][i].frame < |s.tables|
    ensures var f := Walk(s, d, i, j).frame;
            && f < |s.refs| && s.refs[f] > 0 && s.used > 0
            && (f < LOW ==> s.refs[f] > 1)
            && var s2 := WithLeaf(Released(s, f), d, i, j, BLANK);
               Inv(s2) && OnlyLeaf(s, s2, d, i, j, BLANK) && (Unshared(s) ==> Unshared(s2))
  {
    hide RefSet, CountSet;
    var f := Walk(s, d, i, j).frame;
    assert Holds(s, Table(d, i), s.tables[d][i].frame);
    HeldIsCounted(s, Leaf(d, i, j), f);
    if f < LOW {
      assert Holds(s, Pin(f), f);
    }
    ReleaseKeepsAllocator(s, f);
    var s2 := WithLeaf(Released(s, f), d, i, j, BLANK);
    LeafMoves(s, s2, d, i, j, BLANK);
    hide Walk;
    InvDelta(s, s2, Leaf(d, i, j), f, Leaf(d, i, j), -1);
  }

  /** An entry is rewritten without moving a counted reference: its flags change, or a
      supervisor entry is copied. */
  lemma RetagLeaf(s: State, d: nat, i: nat, j: nat, e: Entry)
    requires Inv(s) && Owned(s, d, i) && j < ENTRIES
    requires UserLeaf(e) <==> UserLeaf(Walk(s, d, i, j))
    requires UserLeaf(e) ==> e.frame == Walk(s, d, i, j).frame
    requires !e.present ==> e.frame == 0
    requires e.present && i != 0 ==> e.user
    ensures s.tables[d][i].frame < |s.tables|
    ensures var s2 := WithLeaf(s, d, i, j, e);
            && Inv(s2) && OnlyLeaf(s, s2, d, i, j, e)
            && (forall r: Ref, g: nat :: Holds(s2, r, g) <==> Holds(s, r, g))
  {
    hide RefSet, CountSet;
    assert Holds(s, Table(d, i), s.tables[d][i].frame);
    var s2 := WithLeaf(s, d, i, j, e);
    LeafMoves(s, s2, d, i, j, e);
    hide Walk;
    InvDelta(s, s2, Leaf(d, i, j), -1, Leaf(d, i, j), -1);
  }

  ghost function WithSlot(s: State, d: nat, i: nat, e: Entry): (s2: State)
    requires WellShaped(s) && d < |s.tables| && i < ENTRIES
    ensures WellShaped(s2)
  {
    s.(tables := s.tables[d := s.tables[d][i := e]])
  }

  ghost predicate OnlySlot(s: State, s2: State, d: nat, i: nat, e: Entry)
    requires WellShaped(s) && WellShaped(s2)
  {
    && s2.spaces == s.spaces && s2.kernel == s.kernel && |s2.refs| == |s.refs|
    && d < |s.tables| && i < ENTRIES
    && (forall c: nat :: Root(s.spaces, c) && c != d ==> s2.tables[c] == s.tables[c])
    && s2.tables[d] == s.tables[d][i := e]
    && (forall a: nat, b: nat :: !(a == d && b == i) ==> (Owned(s2, a, b) <==> Owned(s, a, b)))
    && (forall c: nat, a: nat, b: nat :: Root(s.spaces, c) && !(c == d && a == i) ==>
          Walk(s2, c, a, b) == Walk(s, c, a, b))
  }

  /** Slot 0 maps the low 4 MiB one to one, for the supervisor. */
  ghost predicate IdentityMapped(s: State, d: nat)
    requires WellShaped(s)
  {
    forall j: nat :: j < ENTRIES ==> Walk(s, d, 0, j) == Entry(j, true, true, false, false)
  }

  /** The other slots are the supervisor slots of `from`, and nothing else. */
  ghost predicate SupervisorSlots(s: State, s2: State, from: nat, d: nat)
    requires WellShaped(s) && WellShaped(s2)
  {
    && from < |s.tables| && d < |s2.tables|
    && forall i :: 0 < i < ENTRIES ==>
         s2.tables[d][i] == if s.tables[from][i].present && !s.tables[from][i].user then s.tables[from][i] else BLANK
  }

  lemma SlotsSince(s0: State, s1: State, s2: State, from: nat, d: nat)
    requires WellShaped(s0) && WellShaped(s1) && WellShaped(s2) && SameSpace(s0, s1, from) && SupervisorSlots(s1, s2, from, d)
    ensures SupervisorSlots(s0, s2, from, d)
  {
    hide Walk;
  }

  /** The table behind a slot holds no user entry. */
  ghost predicate NoUserEntry(s: State, t: nat)
    requires WellShaped(s)
  {
    t < |s.tables| && forall j :: 0 <= j < ENTRIES ==> !UserLeaf(s.tables[t][j])
  }

  ghost predicate NoEntry(s: State, t: nat)
    requires WellShaped(s)
  {
    t < |s.tables| && forall j :: 0 <= j < ENTRIES ==> !s.tables[t][j].present
  }

  /** Entries that are not present carry no frame. */
  ghost predicate CleanTable(s: State, t: nat)
    requires WellShaped(s)
  {
    t < |s.tables| && forall j :: 0 <= j < ENTRIES && !s.tables[t][j].present ==> s.tables[t][j].frame == 0
  }

  /** What a rewritten slot does to the references, when neither the old nor the new table
      holds a user entry. */
  lemma SlotMoves(s: State, s2: State, d: nat, i: nat, e: Entry)
    requires Inv(s) && WellShaped(s2) && d in s.spaces && i < ENTRIES
    requires s2.tables == WithSlot(s, d, i, e).tables
    requires s2.spaces == s.spaces && s2.kernel == s.kernel && |s2.refs| == |s.refs|
    requires s.kernel <= s2.pinned
    requires Owned(s, d, i) ==> NoUserEntry(s, s.tables[d][i].frame)
    requires e.present ==> NoUserEntry(s, e.frame) && e.frame != d
    requires e.present ==> (e.user <==> USER_FIRST <= i < USER_LIMIT) && (e.user ==> e.writable)
    requires e.present && (i == 0 || e.user) ==> CleanTable(s, e.frame)
    requires e.present && e.user ==> NoEntry(s, e.frame)
    requires e.present && i != 0 && !e.user ==> e.frame in s.kernel
    ensures OnlySlot(s, s2, d, i, e)
    ensures forall r: Ref, g: nat :: r != Table(d, i) && !r.Pin? ==> (Holds(s2, r, g) <==> Holds(s, r, g))
    ensures forall g: nat :: Holds(s2, Table(d, i), g) <==> e.present && (i == 0 || e.user) && e.frame == g
    ensures KernelOk(s2) && LayoutOk(s2)
  {
    WriteSlot(s, s2, d, i, e);
    forall r: Ref, g: nat | r != Table(d, i) && !r.Pin?
      ensures Holds(s2, r, g) <==> Holds(s, r, g)
    {
      if r.Leaf? && r.d == d && r.i == i {
        assert !Holds(s, r, g);
        assert !Holds(s2, r, g);
      }
    }
    assert d in s.kernel ==> Holds(s, Pin(d), d) && Holds(s, Dir(d), d);
    assert KernelOk(s2);
    forall a: nat, b: nat, j: nat | Owned(s2, a, b) && !Walk(s2, a, b, j).present
      ensures Walk(s2, a, b, j).frame == 0
    {
    }
  }

  /** A fresh table is entered into an unused slot. */
  lemma AttachTable(s: State, d: nat, i: nat, e: Entry)
    requires Inv(s) && d in s.spaces && i < ENTRIES && !s.tables[d][i].present
    requires e.present && Fresh(s, e.frame) && NoUserEntry(s, e.frame) && CleanTable(s, e.frame)
    requires e.user <==> USER_FIRST <= i < USER_LIMIT
    requires i == 0 || (e.user && e.writable && NoEntry(s, e.frame))
    ensures var s2 := WithSlot(s, d, i, e).(pinned := s.pinned - {e.frame});
            && Inv(s2) && OnlySlot(s, s2, d, i, e)
            && (Unshared(s) ==> Unshared(s2))
            && (forall g: nat :: Fresh(s, g) && g != e.frame ==> Fresh(s2, g))
  {
    hide RefSet, CountSet;
    assert Holds(s, Dir(d), d);
    var s2 := WithSlot(s, d, i, e).(pinned := s.pinned - {e.frame});
    SlotMoves(s, s2, d, i, e);
    InvDelta(s, s2, Pin(e.frame), e.frame, Table(d, i), e.frame);
    UnsharedSlot(s, s2, d, i, e);
  }

  lemma UnsharedSlot(s: State, s2: State, d: nat, i: nat, e: Entry)
    requires WellShaped(s) && WellShaped(s2) && OnlySlot(s, s2, d, i, e) && d in s.spaces
    requires forall r: Ref, g: nat :: r.Leaf? ==> (Holds(s2, r, g) <==> Holds(s, r, g))
    requires forall r: Ref, g: nat :: Holds(s2, r, g) && !Holds(s, r, g) ==> forall q :: Holds(s2, q, g) ==> q == r
    requires Owned(s, d, i) ==> NoUserEntry(s, s.tables[d][i].frame)
    requires e.present && (i == 0 || e.user) ==> NoUserEntry(s, e.frame) && s2.tables[e.frame] == s.tables[e.frame]
    ensures Unshared(s) ==> Unshared(s2)
  {
    if Unshared(s) {
      forall r1: Ref, r2: Ref, f: nat | Holds(s2, r1, f) && Holds(s2, r2, f) && WritableRef(s2, r1)
        ensures r1 == r2
      {
        assert Holds(s, r1, f);
        if r1.d == d && r1.i == i {
          assert false;
        }
        assert WritableRef(s, r1);
      }
    }
  }

  /** A supervisor slot is shared with the kernel. */
  lemma ShareSlot(s: State, d: nat, i: nat, e: Entry)
    requires Inv(s) && d in s.spaces && 0 < i < ENTRIES && !s.tables[d][i].present
    requires e.present && !e.user && e.frame in s.kernel && !(USER_FIRST <= i < USER_LIMIT)
    ensures var s2 := WithSlot(s, d, i, e);
            && Inv(s2) && OnlySlot(s, s2, d, i, e)
            && (Unshared(s) ==> Unshared(s2))
  {
    hide RefSet, CountSet;
    assert Holds(s, Dir(d), d) && (d in s.kernel ==> Holds(s, Pin(d), d));
    var s2 := WithSlot(s, d, i, e);
    SlotMoves(s, s2, d, i, e);
    InvDelta(s, s2, Table(d, i), -1, Table(d, i), -1);
    UnsharedSlot(s, s2, d, i, e);
  }

  /** A table without user entries is released and its slot cleared. */
  lemma DropTable(s: State, d: nat, i: nat)
    requires Inv(s) && Owned(s, d, i) && NoUserEntry(s, s.tables[d][i].frame)
    ensures var t := s.tables[d][i].frame;
            && t < |s.refs| && s.refs[t] == 1 && s.used > 0 && LOW <= t
            && var s2 := WithSlot(Released(s, t), d, i, BLANK);
               Inv(s2) && OnlySlot(s, s2, d, i, BLANK) && (Unshared(s) ==> Unshared(s2))
  {
    hide CountSet;
    var t := s.tables[d][i].frame;
    SoleHolder(s, Table(d, i), t);
    hide RefSet;
    ReleaseKeepsAllocator(s, t);
    var s2 := WithSlot(Released(s, t), d, i, BLANK);
    SlotMoves(s, s2, d, i, BLANK);
    InvDelta(s, s2, Table(d, i), t, Table(d, i), -1);
    UnsharedSlot(s, s2, d, i, BLANK);
  }

  /** A live directory or table has count 1 and is not a pinned low frame. */
  lemma SoleHolder(s: State, r: Ref, f: nat)
    requires Inv(s) && Holds(s, r, f) && (r.Dir? || r.Table?)
    ensures f < |s.refs| && s.refs[f] == 1 && s.used > 0 && LOW <= f && f !in s.pinned
  {
    HeldIsCounted(s, r, f);
    assert RefSet(s, f) == {r};
    assert f in s.pinned ==> Holds(s, Pin(f), f);
  }

  /** A directory without owned tables is released. */
  lemma DropDir(s: State, d: nat)
    requires Inv(s) && d in s.spaces
    requires forall i: nat :: !Owned(s, d, i)
    ensures s.refs[d] == 1 && s.used > 0 && LOW <= d
    ensures var s2 := Released(s, d).(spaces := s.spaces - {d});
            && Inv(s2)
            && (forall c :: Root(s.spaces, c) && c != d ==> SameSpace(s, s2, c))
            && (Unshared(s) ==> Unshared(s2))
  {
    hide CountSet;
    SoleHolder(s, Dir(d), d);
    hide RefSet;
    ReleaseKeepsAllocator(s, d);
    var s2 := Released(s, d).(spaces := s.spaces - {d});
    SameWalk(s, s2);
    InvDelta(s, s2, Dir(d), d, Dir(d), -1);
  }

  /** Only the page (i, j) of space d differs, to the eye of a page walk. */
  ghost predicate OnlyPage(s: State, s2: State, d: nat, i: nat, j: nat, e: Entry)
    requires WellShaped(s) && WellShaped(s2)
  {
    && s2.spaces == s.spaces && s2.kernel == s.kernel && |s2.refs| == |s.refs|
    && (forall c :: Root(s.spaces, c) && c != d ==> SameSpace(s, s2, c))
    && (forall a: nat, b: nat :: !(a == i && b == j) ==> Walk(s2, d, a, b) == Walk(s, d, a, b))
    && Walk(s2, d, i, j) == e
  }

  lemma BlankTableIsClean(s: State, t: nat)
    requires WellShaped(s) && t < |s.tables| && s.tables[t] == BlankTable()
    ensures NoUserEntry(s, t) && CleanTable(s, t) && NoEntry(s, t)
  {
    forall j | 0 <= j < ENTRIES
      ensures s.tables[t][j] == BLANK
    {
      assert s.tables[t][j] == BlankTable()[j];
    }
  }

  /** A blank table entered into an unused slot changes no walk. */
  lemma AttachedBlank(s0: State, s1: State, s2: State, d: nat, i: nat, e: Entry)
    requires WellShaped(s0) && WellShaped(s1) && WellShaped(s2)
    requires s1.spaces == s0.spaces && d in s0.spaces
    requires forall c :: Root(s0.spaces, c) ==> SameSpace(s0, s1, c)
    requires OnlySlot(s1, s2, d, i, e) && i < ENTRIES && !s0.tables[d][i].present
    requires e.present && e.frame < |s2.tables| && s2.tables[e.frame] == BlankTable()
    ensures forall c :: Root(s0.spaces, c) && c != d ==> SameSpace(s0, s2, c)
    ensures forall a: nat, b: nat :: Walk(s2, d, a, b) == Walk(s0, d, a, b)
  {
    forall c | Root(s0.spaces, c) && c != d
      ensures SameSpace(s0, s2, c)
    {
      assert SameSpace(s0, s1, c) && Root(s1.spaces, c);
    }
    assert SameSpace(s0, s1, d);
    forall a: nat, b: nat
      ensures Walk(s2, d, a, b) == Walk(s0, d, a, b)
    {
      assert Root(s1.spaces, d);
      if a == i && b < ENTRIES {
        assert s2.tables[e.frame][b] == BlankTable()[b];
      }
    }
  }

  /** Changing the flags of one entry keeps writable frames unshared if the entry becomes
      writable only for a frame nobody else refers to. */
  lemma UnsharedRetag(s: State, s2: State, d: nat, i: nat, j: nat, e: Entry)
    requires WellShaped(s) && WellShaped(s2) && OnlyLeaf(s, s2, d, i, j, e)
    requires forall r: Ref, g: nat :: Holds(s2, r, g) <==> Holds(s, r, g)
    requires UserLeaf(e) && e.writable ==> forall r :: Holds(s, r, e.frame) ==> r == Leaf(d, i, j)
    requires Unshared(s)
    ensures Unshared(s2)
  {
    forall r1: Ref, r2: Ref, f: nat | Holds(s2, r1, f) && Holds(s2, r2, f) && WritableRef(s2, r1)
      ensures r1 == r2
    {
      assert Holds(s, r1, f) && Holds(s, r2, f);
      if r1 != Leaf(d, i, j) {
        assert Root(s.spaces, r1.d);
        assert WritableRef(s, r1);
      }
    }
  }

  /** The sole entry of a frame takes it over for writing (paging.c:503-509). */
  lemma TakeOver(s: State, d: nat, i: nat, j: nat, e: Entry)
    requires Inv(s) && Unshared(s) && Owned(s, d, i) && j < ENTRIES
    requires UserLeaf(e) && UserLeaf(Walk(s, d, i, j)) && e.frame == Walk(s, d, i, j).frame
    requires e.frame < |s.refs| && s.refs[e.frame] == 1
    ensures s.tables[d][i].frame < |s.tables|
    ensures var s2 := WithLeaf(s, d, i, j, e);
            Inv(s2) && Unshared(s2) && OnlyLeaf(s, s2, d, i, j, e)
  {
    hide Exact, InRange, Exclusive, KernelOk, LayoutOk, Unshared, Tallied;
    HeldIsCounted(s, Leaf(d, i, j), e.frame);
    RetagLeaf(s, d, i, j, e);
    UnsharedRetag(s, WithLeaf(s, d, i, j, e), d, i, j, e);
  }

  /** The entry leaves its shared frame for a fresh one (paging.c:520-524). */
  lemma SplitLeaf(s: State, d: nat, i: nat, j: nat, e: Entry)
    requires Inv(s) && Unshared(s) && Owned(s, d, i) && j < ENTRIES
    requires UserLeaf(e) && UserLeaf(Walk(s, d, i, j)) && Fresh(s, e.frame)
    ensures s.tables[d][i].frame < |s.tables|
    ensures var f := Walk(s, d, i, j).frame;
            && f < |s.refs| && s.refs[f] > 0 && s.used > 0 && (f < LOW ==> s.refs[f] > 1)
            && var s2 := Released(WithLeaf(s, d, i, j, e).(pinned := s.pinned - {e.frame}), f);
               Inv(s2) && Unshared(s2) && OnlyLeaf(s, s2, d, i, j, e)
  {
    hide Exact, InRange, Exclusive, KernelOk, LayoutOk, Unshared, Tallied;
    var t := s.tables[d][i].frame;
    var f := Walk(s, d, i, j).frame;
    UserEntryOwned(s, d, i, j);
    DropLeaf(s, d, i, j);
    var s1 := WithLeaf(Released(s, f), d, i, j, BLANK);
    assert Root(s.spaces, d);
    assert s1.tables[d] == s.tables[d];
    assert Fresh(s1, e.frame) by { DropKeepsFresh(s, s1, d, i, j, e.frame); }
    AttachLeaf(s1, d, i, j, e);
    var s2 := WithLeaf(s1, d, i, j, e).(pinned := s1.pinned - {e.frame});
    assert s1.tables[t][j := e] == s.tables[t][j := e];
    assert s2.tables == WithLeaf(s, d, i, j, e).tables;
    assert s2 == Released(WithLeaf(s, d, i, j, e).(pinned := s.pinned - {e.frame}), f);
  }

  lemma DropKeepsFresh(s: State, s1: State, d: nat, i: nat, j: nat, g: nat)
    requires WellShaped(s) && WellShaped(s1) && OnlyLeaf(s, s1, d, i, j, BLANK)
    requires s1.pinned == s.pinned && Fresh(s, g)
    ensures Fresh(s1, g)
  {
    forall r | Holds(s1, r, g)
      ensures r == Pin(g)
    {
      if r.Leaf? || r.Table? {
        assert Root(s.spaces, r.d);
      }
      assert Holds(s, r, g);
    }
  }

  predicate CowEntry(e: Entry) { e.present && e.user && e.cow && !e.writable }

  /** When a copy-on-write page can be given to its space for writing. */
  ghost predicate CanResolve(s: State, d: nat, i: nat, j: nat, scratch: bool, failAfter: int)
    requires WellShaped(s)
  {
    var e := Walk(s, d, i, j);
    && CowEntry(e) && e.frame < |s.refs|
    && (s.refs[e.frame] == 1 ||
        (scratch && failAfter != 0 && HasFree(s)))
  }

  ghost predicate HasFree(s: State)
    requires WellShaped(s)
  {
    exists g :: LOW <= g < |s.refs| && !s.bitmap[g]
  }

  /** The page is now writable, in its old frame or in one that nobody used, and has kept its
      contents; no other page of any space changed. */
  ghost predicate CowResolved(s: State, s2: State, d: nat, i: nat, j: nat)
    requires WellShaped(s) && WellShaped(s2)
  {
    var e, f := Walk(s, d, i, j), Walk(s2, d, i, j).frame;
    && OnlyPage(s, s2, d, i, j, e.(frame := f, writable := true, cow := false))
    && e.frame < |s.refs| && f < |s.refs|
    && (f == e.frame || s.refs[f] == 0)
    && s2.pages == s.pages[f := s.pages[e.frame]]
  }

  lemma SlotInRange(s: State, d: nat, i: nat)
    requires Inv(s) && Root(s.spaces, d) && i < ENTRIES && s.tables[d][i].present
    ensures s.tables[d][i].frame < |s.tables|
  {
    if Owned(s, d, i) {
      assert Holds(s, Table(d, i), s.tables[d][i].frame);
    } else {
      assert SharedSlot(s, d, i);
    }
  }

  lemma EntryIsUser(s: State, d: nat, i: nat, j: nat)
    requires Inv(s) && d in s.spaces && Walk(s, d, i, j).present
    ensures USER_FIRST <= i < USER_LIMIT ==> Owned(s, d, i) && Walk(s, d, i, j).user
    ensures Owned(s, d, i) && !Walk(s, d, i, j).user ==> i == 0
  {
    assert SharedSlot(s, d, i) || Owned(s, d, i);
    assert Root(s.spaces, d);
  }

  lemma UserEntryOwned(s: State, d: nat, i: nat, j: nat)
    requires Inv(s) && d in s.spaces && UserLeaf(Walk(s, d, i, j))
    ensures Owned(s, d, i) && Holds(s, Leaf(d, i, j), Walk(s, d, i, j).frame)
    ensures USER_FIRST <= i < USER_LIMIT && j < ENTRIES
  {
    assert SharedSlot(s, d, i) || Owned(s, d, i);
    assert Root(s.spaces, d);
  }

  /** The contents of the pages play no part in the bookkeeping. */
  lemma PagesIrrelevant(s: State, s2: State)
    requires Inv(s) && |s2.pages| == |s.pages| && s2 == s.(pages := s2.pages)
    ensures Inv(s2) && (Unshared(s) ==> Unshared(s2))
    ensures forall g: nat :: Fresh(s, g) ==> Fresh(s2, g)
    ensures forall d: nat, i: nat, j: nat :: Walk(s2, d, i, j) == Walk(s, d, i, j)
    ensures forall d: nat, i: nat :: Owned(s2, d, i) <==> Owned(s, d, i)
  {
    hide RefSet, CountSet;
    SameWalk(s, s2);
    hide Walk;
    InvDelta(s, s2, Pin(0), -1, Pin(0), -1);
  }

  /** An allocation given back at once leaves no trace. */
  lemma TakeUndone(s: State, f: nat)
    requires Inv(s) && f < |s.refs| && s.refs[f] == 0
    ensures Released(Taken(s, f, s.tables[f]), f).(pinned := s.pinned + {f} - {f}) == s
  {
    Unreferenced(s, f);
    assert s.refs[f := 1][f := 0] == s.refs;
    assert s.bitmap[f := true][f := false] == s.bitmap;
    assert s.tables[f := s.tables[f]] == s.tables;
    assert s.pinned + {f} - {f} == s.pinned;
  }

  /** The state after frame f has received a copy of the page, before the entry moves to it. */
  ghost function Copied(s: State, f: nat, from: nat): (s1: State)
    requires WellShaped(s) && f < |s.refs| && from < |s.refs|
  {
    var s1 := Taken(s, f, s.tables[f]);
    s1.(pages := s1.pages[f := s1.pages[from]])
  }

  lemma CopiedOk(s: State, f: nat, from: nat)
    requires Inv(s) && Unshared(s) && f < |s.refs| && from < |s.refs| && s.refs[f] == 0
    ensures Inv(Copied(s, f, from)) && Unshared(Copied(s, f, from)) && Fresh(Copied(s, f, from), f)
    ensures f !in s.pinned
    ensures forall d :: Root(s.spaces, d) ==> SameSpace(s, Copied(s, f, from), d)
  {
    hide Exact, InRange, Exclusive, KernelOk, LayoutOk, Unshared, Tallied;
    TakeFrame(s, f, s.tables[f]);
    var s1 := Taken(s, f, s.tables[f]);
    PagesIrrelevant(s1, Copied(s, f, from));
    forall d | Root(s.spaces, d)
      ensures SameSpace(s, Copied(s, f, from), d)
    {
      assert SameSpace(s, s1, d);
    }
  }

  /** The copy path of paging_resolve_cow_fault as a whole. */
  lemma SplitPage(s: State, f: nat, d: nat, i: nat, j: nat)
    requires Inv(s) && Unshared(s) && Owned(s, d, i) && j < ENTRIES && UserLeaf(Walk(s, d, i, j))
    requires f < |s.refs| && s.refs[f] == 0 && Walk(s, d, i, j).frame < |s.refs|
    ensures s.tables[d][i].frame < |s.tables|
    ensures var o, s1 := Walk(s, d, i, j).frame, Copied(s, f, Walk(s, d, i, j).frame);
            var e := Walk(s, d, i, j).(frame := f, writable := true, cow := false);
            && s1.tables[d] == s.tables[d] && s1.refs[o] > 0 && s1.used > 0 && (o < LOW ==> s1.refs[o] > 1)
            && AllocOk(s1)
            && var s2 := Released(WithLeaf(s1, d, i, j, e).(pinned := s1.pinned - {f}), o);
               Inv(s2) && Unshared(s2) && s2.pinned == s.pinned && CowResolved(s, s2, d, i, j)
  {
    hide Exact, InRange, Exclusive, KernelOk, LayoutOk, Unshared, Tallied;
    var o := Walk(s, d, i, j).frame;
    CopiedOk(s, f, o);
    var s1 := Copied(s, f, o);
    assert Root(s.spaces, d) && SameSpace(s, s1, d);
    var e := Walk(s, d, i, j).(frame := f, writable := true, cow := false);
    SplitLeaf(s1, d, i, j, e);
    var s2 := Released(WithLeaf(s1, d, i, j, e).(pinned := s1.pinned - {f}), o);
    assert s2.pinned == s.pinned;
    forall c | Root(s.spaces, c) && c != d
      ensures SameSpace(s, s2, c)
    {
      assert SameSpace(s, s1, c);
    }
  }

  lemma SharedOutside(s: State, d: nat, i: nat)
    requires Inv(s) && d in s.spaces && i < ENTRIES && s.tables[d][i].present
    ensures s.tables[d][i].user <==> USER_FIRST <= i < USER_LIMIT
    ensures s.tables[d][i].user ==> s.tables[d][i].writable
    ensures !Owned(s, d, i) ==> s.tables[d][i].frame in s.kernel
  {
    assert Root(s.spaces, d);
    assert !Owned(s, d, i) ==> SharedSlot(s, d, i);
  }

  // ---------- boot ----------

  ghost predicate OneEach(refs: seq<nat>) {
    forall f :: 0 <= f < |refs| ==> refs[f] <= 1
  }

  lemma AllSet(b: seq<bool>)
    requires forall f :: 0 <= f < |b| ==> b[f]
    ensures CountSet(b) == |b|
  {
    if b != [] {
      AllSet(b[..|b| - 1]);
    }
  }

  /** With no space yet, every used frame is held once, by the kernel. */
  lemma Booted(s: State)
    requires WellShaped(s) && AllocOk(s) && OneEach(s.refs) && s.spaces == {}
    requires s.pinned == s.kernel == set f | 0 <= f < |s.refs| && s.bitmap[f]
    requires forall f :: 0 <= f < LOW ==> s.bitmap[f]
    requires forall f, j :: 0 <= f < |s.refs| && 0 <= j < ENTRIES ==> s.tables[f][j] == BLANK
    ensures Inv(s) && Unshared(s)
  {
    forall f | 0 <= f < |s.refs|
      ensures s.refs[f] == |RefSet(s, f)|
    {
      if s.bitmap[f] {
        assert RefSet(s, f) == {Pin(f)};
      } else {
        assert RefSet(s, f) == {};
      }
    }
  }

  /** Before there is any space, the kernel may write its own tables as it likes, as long as
      they stay supervisor tables. */
  lemma KernelTables(s: State, s2: State)
    requires Inv(s) && s.spaces == {} && WellShaped(s2)
    requires s2 == s.(tables := s2.tables, kernel := s2.kernel)
    requires s.kernel <= s2.kernel <= s.pinned
    requires forall f, j :: f in s2.kernel && 0 <= j < ENTRIES ==> !UserLeaf(s2.tables[f][j])
    requires forall i :: 0 <= i < ENTRIES && s2.tables[KERNEL_DIR][i].present ==>
               !(USER_FIRST <= i < USER_LIMIT) && s2.tables[KERNEL_DIR][i].frame in s2.kernel
    ensures Inv(s2) && Unshared(s2)
  {
    hide RefSet, CountSet;
    assert KERNEL_DIR in s2.kernel;
    forall i | 0 <= i < ENTRIES && s2.tables[KERNEL_DIR][i].present
      ensures !s2.tables[KERNEL_DIR][i].user
    {
      assert !UserLeaf(s2.tables[KERNEL_DIR][i]);
    }
    InvDelta(s, s2, Pin(0), -1, Pin(0), -1);
  }

  lemma RetainableBelowMax(s: State, f: nat)
    requires Inv(s) && f < |s.refs|
    ensures s.refs[f] <= MAX_REFS
  {
  }

  /** Without address spaces the frames in use are the kernel's own. */
  lemma IdleUsed(s: State)
    requires Inv(s) && s.spaces == {}
    ensures s.used == |s.pinned|
    ensures forall f :: 0 <= f < |s.refs| ==> s.refs[f] == if f in s.pinned then 1 else 0
  {
    forall f | 0 <= f < |s.refs|
      ensures s.refs[f] == if f in s.pinned then 1 else 0
    {
      assert RefSet(s, f) == if f in s.pinned then {Pin(f)} else {};
    }
    CountIsCard(s.bitmap, s.pinned);
  }

  lemma CountIsCard(b: seq<bool>, x: set<nat>)
    requires forall f: nat :: f in x <==> f < |b| && b[f]
    ensures CountSet(b) == |x|
  {
    if b == [] {
      assert x == {};
    } else {
      var last := |b| - 1;
      CountIsCard(b[..last], x - {last});
    }
  }

  /** A frame that an entry may write has count 1 and is mapped by that entry alone: no two
      spaces share a writable frame. */
  lemma WritableMeansOne(s: State, d: nat, i: nat, j: nat)
    requires Inv(s) && Unshared(s) && d in s.spaces && UserLeaf(Walk(s, d, i, j)) && Walk(s, d, i, j).writable
    ensures var f := Walk(s, d, i, j).frame;
            && f < |s.refs| && s.refs[f] == 1
            && (forall c, a, b :: c in s.spaces && UserLeaf(Walk(s, c, a, b)) && Walk(s, c, a, b).frame == f ==>
                  c == d && a == i && b == j)
  {
    UserEntryOwned(s, d, i, j);
    var r, f := Leaf(d, i, j), Walk(s, d, i, j).frame;
    assert WritableRef(s, r);
    assert RefSet(s, f) == {r};
    forall c, a, b | c in s.spaces && UserLeaf(Walk(s, c, a, b)) && Walk(s, c, a, b).frame == f
      ensures c == d && a == i && b == j
    {
      UserEntryOwned(s, c, a, b);
      assert Holds(s, Leaf(c, a, b), f);
    }
  }
}
