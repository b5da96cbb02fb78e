/** When memory does not suffice: exactly what a page table, a page, an address space or a clone
    needs of the frame allocator (kernel/frame.c, kernel/paging.c). */
module VmScarce {
  import opened VmState
  import opened VmLemmas
  import opened VmSteps
  import opened VmClone

  /** The free frames that can hold page tables. */
  ghost function LowFree(bitmap: seq<bool>): set<int> {
    set f | LOW <= f < IDENTITY && f < |bitmap| && !bitmap[f]
  }

  /** n page tables cannot be had: a failure is injected before, or too few low frames are free. */
  ghost predicate Short(bitmap: seq<bool>, failAfter: int, n: nat) {
    0 <= failAfter < n || |LowFree(bitmap)| < n
  }

  /** k page tables have been had since. */
  ghost predicate Spent(bitmap: seq<bool>, failAfter: int, bitmap2: seq<bool>, failAfter2: int, k: nat) {
    |LowFree(bitmap2)| + k == |LowFree(bitmap)| && if failAfter < 0 then failAfter2 == failAfter else failAfter2 == failAfter - k >= 0
  }

  /** The injected failure comes one allocation nearer. */
  function Tick(failAfter: int): int { if failAfter > 0 then failAfter - 1 else failAfter }

  /** The frames for page tables are those from 3 MiB to 4 MiB that are free. */
  lemma ShortMeans(bitmap: seq<bool>, failAfter: int, n: nat)
    ensures Short(bitmap, failAfter, n) <==>
      (0 <= failAfter && failAfter < n) || |set f | 768 <= f < 1024 && f < |bitmap| && !bitmap[f]| < n
  {
    assert LowFree(bitmap) == set f | 768 <= f < 1024 && f < |bitmap| && !bitmap[f];
  }

  lemma FirstTable(bitmap: seq<bool>, failAfter: int)
    ensures Short(bitmap, failAfter, 1) <==> failAfter == 0 || forall g :: LOW <= g < IDENTITY && g < |bitmap| ==> bitmap[g]
  {
    if |LowFree(bitmap)| >= 1 {
      var g :| g in LowFree(bitmap);
    }
    forall g | LOW <= g < IDENTITY && g < |bitmap| && !bitmap[g]
      ensures |LowFree(bitmap)| >= 1
    {
      assert g in LowFree(bitmap);
    }
  }

  lemma OneTaken(bitmap: seq<bool>, failAfter: int, f: nat)
    requires LOW <= f < IDENTITY && f < |bitmap| && !bitmap[f] && failAfter != 0
    ensures Spent(bitmap, failAfter, bitmap[f := true], Tick(failAfter), 1)
  {
    assert LowFree(bitmap[f := true]) == LowFree(bitmap) - {f as int};
    assert f as int in LowFree(bitmap);
  }

  lemma SpentShort(bitmap: seq<bool>, failAfter: int, bitmap2: seq<bool>, failAfter2: int, k: nat, n: nat)
    requires Spent(bitmap, failAfter, bitmap2, failAfter2, k)
    ensures Short(bitmap2, failAfter2, n) <==> Short(bitmap, failAfter, n + k)
  {
  }

  lemma SpentMore(b0: seq<bool>, f0: int, b1: seq<bool>, f1: int, b2: seq<bool>, f2: int, k: nat, n: nat)
    requires Spent(b0, f0, b1, f1, k) && Spent(b1, f1, b2, f2, n)
    ensures Spent(b0, f0, b2, f2, k + n)
  {
  }

  /** At most k frames of those that can hold page tables have been taken since. */
  ghost predicate AtMost(bitmap: seq<bool>, failAfter: int, bitmap2: seq<bool>, failAfter2: int, k: nat) {
    |LowFree(bitmap2)| + k >= |LowFree(bitmap)| && if failAfter < 0 then failAfter2 == failAfter else failAfter2 + k >= failAfter && failAfter2 >= 0
  }

  lemma AtMostNone(bitmap: seq<bool>, failAfter: int, k: nat)
    ensures AtMost(bitmap, failAfter, bitmap, failAfter, k)
  {
  }

  lemma SpentAtMost(bitmap: seq<bool>, failAfter: int, bitmap2: seq<bool>, failAfter2: int, k: nat)
    requires Spent(bitmap, failAfter, bitmap2, failAfter2, k)
    ensures AtMost(bitmap, failAfter, bitmap2, failAfter2, k)
  {
  }

  lemma AtMostOne(bitmap: seq<bool>, failAfter: int, f: nat)
    requires f < |bitmap| && !bitmap[f] && failAfter != 0
    ensures AtMost(bitmap, failAfter, bitmap[f := true], Tick(failAfter), 1)
  {
    assert LowFree(bitmap[f := true]) == LowFree(bitmap) - {f as int};
  }

  lemma AtMostReleased(bitmap: seq<bool>, failAfter: int, b: seq<bool>, fa: int, k: nat, f: nat, kept: bool)
    requires AtMost(bitmap, failAfter, b, fa, k) && f < |b| && b[f]
    ensures AtMost(bitmap, failAfter, b[f := kept], fa, k)
  {
    var more := LowFree(b[f := kept]) - LowFree(b);
    assert LowFree(b[f := kept]) == LowFree(b) + more;
  }

  lemma AtMostMore(b0: seq<bool>, f0: int, b1: seq<bool>, f1: int, b2: seq<bool>, f2: int, k: nat, n: nat)
    requires AtMost(b0, f0, b1, f1, k) && AtMost(b1, f1, b2, f2, n)
    ensures AtMost(b0, f0, b2, f2, k + n)
  {
  }

  lemma AtMostLess(b0: seq<bool>, f0: int, b1: seq<bool>, f1: int, k: nat, n: nat)
    requires AtMost(b0, f0, b1, f1, k) && k <= n
    ensures AtMost(b0, f0, b1, f1, n)
  {
  }

  lemma AtMostShort(bitmap: seq<bool>, failAfter: int, bitmap2: seq<bool>, failAfter2: int, k: nat, n: nat)
    requires AtMost(bitmap, failAfter, bitmap2, failAfter2, k) && Short(bitmap2, failAfter2, n)
    ensures Short(bitmap, failAfter, k + n)
  {
  }

  lemma ShortMore(bitmap: seq<bool>, failAfter: int, n: nat, k: nat)
    requires Short(bitmap, failAfter, n) && n <= k
    ensures Short(bitmap, failAfter, k)
  {
  }

  /** A private copy takes one frame, and gives back a reference to another. */
  lemma SplitBudget(s: State, f: nat, failAfter: int, d: nat, i: nat, j: nat, kept: bool)
    requires Inv(s) && f < |s.refs| && !s.bitmap[f] && failAfter != 0 && Owned(s, d, i) && UserLeaf(Walk(s, d, i, j))
    ensures Walk(s, d, i, j).frame < |s.bitmap|
    ensures AtMost(s.bitmap, failAfter, s.bitmap[f := true][Walk(s, d, i, j).frame := kept], Tick(failAfter), 1)
  {
    hide Exact, InRange, Exclusive, KernelOk, LayoutOk, Tallied, RefSet, AtMost, LowFree;
    HeldIsCounted(s, Leaf(d, i, j), Walk(s, d, i, j).frame);
    AtMostOne(s.bitmap, failAfter, f);
    AtMostReleased(s.bitmap, failAfter, s.bitmap[f := true], Tick(failAfter), 1, Walk(s, d, i, j).frame, kept);
  }

  /** A page with a new frame cannot be had at slot i of directory d; frames are handed out from
      the lowest, so the frame and the table, if one is needed, both come from below. */
  ghost predicate PageShort(s: State, d: nat, i: nat, failAfter: int)
    requires WellShaped(s)
  {
    if d < |s.tables| && i < ENTRIES && s.tables[d][i].present
    then failAfter == 0 || !HasFree(s)
    else Short(s.bitmap, failAfter, 2)
  }

  /** The frame comes first and is the lowest free one. */
  lemma FrameThenTable(s: State, failAfter: int, f: nat)
    requires WellShaped(s) && failAfter != 0 && LOW <= f < |s.bitmap| && !s.bitmap[f]
    requires forall g :: LOW <= g < f ==> s.bitmap[g]
    ensures Short(s.bitmap[f := true], Tick(failAfter), 1) <==> Short(s.bitmap, failAfter, 2)
  {
    if f < IDENTITY {
      OneTaken(s.bitmap, failAfter, f);
    } else {
      assert LowFree(s.bitmap) == {} && LowFree(s.bitmap[f := true]) == {};
    }
  }

  /** With two low frames at hand, every page can be had. */
  lemma EnoughForPage(s: State, d: nat, i: nat, failAfter: int)
    requires WellShaped(s) && !Short(s.bitmap, failAfter, 2)
    ensures !PageShort(s, d, i, failAfter) && failAfter != 0 && HasFree(s)
  {
    var g :| g in LowFree(s.bitmap);
  }

  lemma NoFrameNoTable(s: State, failAfter: int)
    requires WellShaped(s) && (failAfter == 0 || !HasFree(s))
    ensures Short(s.bitmap, failAfter, 1) && Short(s.bitmap, failAfter, 2)
  {
    if failAfter != 0 {
      assert LowFree(s.bitmap) == {};
    }
  }

  // ---------- clones ----------

  ghost function OwnedBelow(s: State, d: nat, n: nat): set<int>
    requires WellShaped(s)
  {
    set i: int | 0 <= i < n && i < ENTRIES && Owned(s, d, i)
  }

  /** The tables that belong to the space alone. */
  ghost function TablesOf(s: State, d: nat): nat
    requires WellShaped(s)
  {
    |OwnedBelow(s, d, ENTRIES)|
  }

  lemma OwnedStep(s: State, d: nat, i: nat)
    requires WellShaped(s) && i < ENTRIES
    ensures |OwnedBelow(s, d, i + 1)| == |OwnedBelow(s, d, i)| + if Owned(s, d, i) then 1 else 0
    ensures |OwnedBelow(s, d, i + 1)| <= TablesOf(s, d)
  {
    assert OwnedBelow(s, d, i + 1) == OwnedBelow(s, d, i) + if Owned(s, d, i) then {i as int} else {};
    var rest := OwnedBelow(s, d, ENTRIES) - OwnedBelow(s, d, i + 1);
    assert OwnedBelow(s, d, ENTRIES) == OwnedBelow(s, d, i + 1) + rest;
  }

  /** The entries of a space that map the frame. */
  ghost function LeavesOf(s: State, d: nat, f: nat): set<Ref>
    requires WellShaped(s)
  {
    set r | r in RefSet(s, f) && r.Leaf? && r.d == d
  }

  /** One more reference for every entry of the space is more than a counter holds. */
  ghost predicate Saturates(s: State, d: nat)
    requires WellShaped(s)
  {
    exists f :: 0 <= f < |s.refs| && s.refs[f] + |LeavesOf(s, d, f)| > MAX_REFS
  }

  ghost predicate CanClone(s: State, d: nat, scratch: bool, failAfter: int)
    requires WellShaped(s)
  {
    scratch && !Short(s.bitmap, failAfter, 1 + TablesOf(s, d)) && !Saturates(s, d)
  }

  /** A frame whose counter is full cannot be shared. */
  lemma FullCounter(s: State, d: nat, i: nat, j: nat, f: nat)
    requires Inv(s) && Holds(s, Leaf(d, i, j), f) && s.refs[f] == MAX_REFS
    ensures Saturates(s, d)
  {
    assert Leaf(d, i, j) in LeavesOf(s, d, f);
    assert LeavesOf(s, d, f) != {};
  }

  /** Frames in use have the counters they had. */
  ghost predicate KeptCounters(refs: seq<nat>, refs2: seq<nat>) {
    |refs2| == |refs| && forall f :: 0 <= f < |refs| && refs[f] > 0 ==> refs2[f] == refs[f]
  }

  /** frame_retain can count one more reference. */
  predicate Retainable(bitmap: seq<bool>, refs: seq<nat>, f: nat)
    requires |bitmap| == |refs|
  {
    f < |refs| && bitmap[f] && refs[f] != 0 && refs[f] != MAX_REFS
  }

  /** Some entry of the table maps a frame whose counter is full. */
  ghost predicate FullTable(s: State, d: nat, i: nat)
    requires WellShaped(s)
  {
    exists j :: UserLeaf(Walk(s, d, i, j)) && Walk(s, d, i, j).frame < |s.refs| && s.refs[Walk(s, d, i, j).frame] == MAX_REFS
  }

  /** An entry that cannot be retained has a full counter. */
  lemma NotRetainable(s: State, s2: State, d: nat, i: nat, j: nat)
    requires Inv(s) && WellShaped(s2) && Owned(s, d, i) && SameSpace(s, s2, d) && KeptCounters(s.refs, s2.refs)
    requires UserLeaf(Walk(s, d, i, j)) && !Retainable(s2.bitmap, s2.refs, Walk(s, d, i, j).frame)
    requires forall f :: 0 <= f < |s.bitmap| && s.bitmap[f] ==> s2.bitmap[f]
    ensures FullTable(s, d, i)
  {
    hide Exact, InRange, Exclusive, KernelOk, LayoutOk, RefSet;
    HeldIsCounted(s, Leaf(d, i, j), Walk(s, d, i, j).frame);
  }

  lemma FullTableSaturates(s0: State, s: State, d: nat, i: nat)
    requires Inv(s0) && WellShaped(s) && Owned(s0, d, i) && SameSpace(s0, s, d) && KeptCounters(s0.refs, s.refs) && FullTable(s, d, i)
    ensures Saturates(s0, d)
  {
    hide Exact, InRange, Exclusive, KernelOk, LayoutOk, RefSet, Tallied, Saturates;
    var j :| UserLeaf(Walk(s, d, i, j)) && Walk(s, d, i, j).frame < |s.refs| && s.refs[Walk(s, d, i, j).frame] == MAX_REFS;
    HeldIsCounted(s0, Leaf(d, i, j), Walk(s0, d, i, j).frame);
    FullCounter(s0, d, i, j, Walk(s0, d, i, j).frame);
  }

  /** A table for slot i of the clone could not be had, or the slot's entries not be retained. */
  lemma CloneRefused(s0: State, s: State, src: nat, i: nat, bitmap: seq<bool>, failAfter: int, failAfter2: int)
    requires Inv(s0) && WellShaped(s) && i < ENTRIES && Owned(s0, src, i) && SameSpace(s0, s, src) && KeptCounters(s0.refs, s.refs)
    requires Spent(bitmap, failAfter, s.bitmap, failAfter2, |OwnedBelow(s0, src, i)|)
    requires Short(s.bitmap, failAfter2, 1) || FullTable(s, src, i)
    ensures Short(bitmap, failAfter, TablesOf(s0, src)) || Saturates(s0, src)
  {
    hide Exact, InRange, Exclusive, KernelOk, LayoutOk, Tallied, Short, Spent, Saturates, OwnedBelow, FullTable, KeptCounters;
    if Short(s.bitmap, failAfter2, 1) {
      var n := |OwnedBelow(s0, src, i)|;
      SpentShort(bitmap, failAfter, s.bitmap, failAfter2, n, 1);
      OwnedStep(s0, src, i);
      ShortMore(bitmap, failAfter, n + 1, TablesOf(s0, src));
    } else {
      FullTableSaturates(s0, s, src, i);
    }
  }

  lemma CountersTrans(a: seq<nat>, b: seq<nat>, c: seq<nat>)
    requires KeptCounters(a, b) && KeptCounters(b, c)
    ensures KeptCounters(a, c)
  {
  }

  lemma NeverShort(bitmap: seq<bool>, failAfter: int)
    ensures !Short(bitmap, failAfter, 0)
  {
  }

  lemma NoneSpent(s: State, d: nat, bitmap: seq<bool>, failAfter: int)
    requires WellShaped(s)
    ensures Spent(bitmap, failAfter, bitmap, failAfter, |OwnedBelow(s, d, 0)|)
  {
    assert OwnedBelow(s, d, 0) == {};
  }

  /** The entry of the clone for an entry of the parent. */
  ghost function Twin(r: Ref, nd: nat): Ref { if r.Leaf? then Leaf(nd, r.i, r.j) else r }

  ghost function Twins(rs: set<Ref>, nd: nat): set<Ref> { set r | r in rs :: Twin(r, nd) }

  lemma {:induction false} TwinsSize(rs: set<Ref>, d: nat, nd: nat)
    requires forall r :: r in rs ==> r.Leaf? && r.d == d
    ensures |Twins(rs, nd)| == |rs|
  {
    if rs != {} {
      var r :| r in rs;
      TwinsSize(rs - {r}, d, nd);
      assert Twins(rs, nd) == Twins(rs - {r}, nd) + {Twin(r, nd)};
    }
  }

  /** While entries are being shared, a counter that is full shows that there was no room. */
  lemma FullWhileSharing(s0: State, s: State, src: nat, nd: nat, i: nat, j: nat, f: nat)
    requires Inv(s0) && Inv(s) && src in s0.spaces && Phase2(s0, s, src, nd, i, j) && f < |s0.refs|
    requires Holds(s0, Leaf(src, i, j), f) && Holds(s, Leaf(src, i, j), f) && s.refs[f] == MAX_REFS
    ensures Saturates(s0, src)
  {
    hide Exclusive, KernelOk, LayoutOk, Tallied, InRange;
    var before, leaves := RefSet(s0, f), LeavesOf(s0, src, f);
    var earlier := leaves - {Leaf(src, i, j)};
    forall r | r in RefSet(s, f)
      ensures r in before || r in Twins(earlier, nd)
    {
      HeldBefore(s0, s, src, nd, i, j, f, r);
    }
    TwinsSize(earlier, src, nd);
    SubsetCard(RefSet(s, f), before + Twins(earlier, nd));
    assert |before + Twins(earlier, nd)| <= |before| + |Twins(earlier, nd)|;
    assert Leaf(src, i, j) in leaves;
  }

  lemma HeldBefore(s0: State, s: State, src: nat, nd: nat, i: nat, j: nat, f: nat, r: Ref)
    requires Inv(s0) && Inv(s) && src in s0.spaces && Phase2(s0, s, src, nd, i, j)
    requires Holds(s0, Leaf(src, i, j), f) && Holds(s, Leaf(src, i, j), f) && Holds(s, r, f)
    ensures Holds(s0, r, f) || r in Twins(LeavesOf(s0, src, f) - {Leaf(src, i, j)}, nd)
  {
    hide Exact, KernelOk, LayoutOk, Tallied, RefSet;
    match r
    case Pin(_) =>
    case Dir(_) =>
    case Table(_, _) =>
    case Leaf(d, a, b) =>
      if d == nd {
        var q := Leaf(src, a, b);
        assert Holds(s0, q, f) && q in RefSet(s0, f);
        assert q in LeavesOf(s0, src, f) - {Leaf(src, i, j)} && Twin(q, nd) == r;
      } else {
        assert Root(s0.spaces, d) && SameSpace(s0, s, d);
      }
  }

  /** A finished clone has counted every entry twice. */
  lemma RoomForAll(s0: State, s: State, src: nat, nd: nat)
    requires Inv(s0) && Inv(s) && src in s0.spaces && Phase3(s0, s, src, nd, ENTRIES, 0)
    ensures !Saturates(s0, src)
  {
    hide Exclusive, KernelOk, LayoutOk, InRange, Phase3;
    forall f | 0 <= f < |s0.refs|
      ensures s0.refs[f] + |LeavesOf(s0, src, f)| <= MAX_REFS
    {
      var before, leaves := RefSet(s0, f), LeavesOf(s0, src, f);
      forall r | r in before + Twins(leaves, nd)
        ensures r in RefSet(s, f)
      {
        if r in before {
          HeldAfter(s0, s, src, nd, f, r);
        } else {
          var q :| q in leaves && Twin(q, nd) == r;
          TwinHeld(s0, s, src, nd, f, q);
        }
      }
      Phase3Sizes(s0, s, src, nd);
      TwinsSize(leaves, src, nd);
      SubsetCard(before + Twins(leaves, nd), RefSet(s, f));
      assert before !! Twins(leaves, nd);
    }
  }

  lemma Phase3Sizes(s0: State, s: State, src: nat, nd: nat)
    requires WellShaped(s0) && WellShaped(s) && Phase3(s0, s, src, nd, ENTRIES, 0)
    ensures |s.refs| == |s0.refs| && nd !in s0.spaces
  {
  }

  lemma HeldAfter(s0: State, s: State, src: nat, nd: nat, f: nat, r: Ref)
    requires Inv(s0) && Inv(s) && src in s0.spaces && Phase3(s0, s, src, nd, ENTRIES, 0) && Holds(s0, r, f)
    ensures Holds(s, r, f)
  {
    hide Exact, KernelOk, LayoutOk, Tallied, RefSet, Exclusive, InRange;
    if (r.Table? || r.Leaf?) && r.d != src {
      assert Root(s0.spaces, r.d) && SameSpace(s0, s, r.d);
    }
  }

  lemma TwinHeld(s0: State, s: State, src: nat, nd: nat, f: nat, q: Ref)
    requires Inv(s0) && Inv(s) && src in s0.spaces && Phase3(s0, s, src, nd, ENTRIES, 0)
    requires Holds(s0, q, f) && q.Leaf? && q.d == src
    ensures Holds(s, Twin(q, nd), f)
  {
    hide Exact, KernelOk, LayoutOk, Tallied, RefSet, Exclusive, InRange;
    assert Owned(s, nd, q.i);
  }
}
