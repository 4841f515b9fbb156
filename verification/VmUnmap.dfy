/**
 Unmapping pages of a process: one page, a range, and what `YY_VirtualFree` makes of it.
 How many entries of a table are in use (`mapCount`) is not modelled: tables stay.
 */
module VmUnmap {
  import opened Basics
  import opened PageTables
  import opened AddressSpaces
  import opened Paging
  import opened CowInstall
  import opened CowUnmap
  import opened CowKernel
  import opened FaultPass
  import opened PhysMemory
  import opened Traversal
  import opened VmMap

  /** Page q of r is there, in a table of its own. */
  ghost predicate OwnPage(s: State, r: nat, q: seq<nat>) {
    && r in s.roots && PagePath(q) && Ent(s.mem, r, q).Some?
    && forall j :: 1 <= j < |q| ==> NotCow(Ent(s.mem, r, q[..j]))
  }

  /** The change of its entry. */
  ghost function Clearing(s: State, r: nat, q: seq<nat>): Install
    requires |q| == LEVELS && Walk(s.mem, r, q[..3]).Some?
  {
    Install(r, q[..3], q[3], Walk(s.mem, r, q[..3]).value, EMPTY)
  }

  lemma OwnPageTables(s: State, r: nat, q: seq<nat>)
    requires Inv(s) && OwnPage(s, r, q)
    ensures Walk(s.mem, r, q[..3]).Some? && Clearing(s, r, q).Path() == q && q[3] < ENTRIES
    ensures OwnTable(s, r, q[..3], Clearing(s, r, q).table)
    ensures Gone(s, Clearing(s, r, q)) == Ent(s.mem, r, q).value && Gone(s, Clearing(s, r, q)).present
    ensures 0 < Gone(s, Clearing(s, r, q)).frame < |s.refs| && s.refs[Gone(s, Clearing(s, r, q)).frame] > 0
  {
    hide CowReadOnly, CowDown, Private, FlagsUp, KernelHalf;
    WalkPrefix(s.mem, r, q, 3);
    ShortWalk(s, r, q[..3]);
    assert q == q[..3] + [q[3]] == q[..4];
    WalkSnoc(s.mem, r, q[..3], q[3]);
    assert Walk(s.mem, r, q[..3]).Some? ==> Ent(s.mem, r, q[..3]).Some?;
    assert NotCow(Ent(s.mem, r, q[..3]));
    assert Reaches(s, r, q, Ent(s.mem, r, q).value.frame);
  }

  /** One level of `walkTo`. */
  method NextTable(k: CoW, r: nat, q: seq<nat>, j: nat, t: nat) returns (next: nat)
    requires k.Valid() && r in k.roots && |q| == LEVELS && j + 1 < LEVELS && q[j] < ENTRIES
    requires Walk(k.S().mem, r, q[..j]) == Some(t) && Walk(k.S().mem, r, q).Some?
    ensures Walk(k.S().mem, r, q[..j + 1]) == Some(next)
  {
    hide Inv;
    ghost var s := k.S();
    AlongPath(s, r, q, t, j);
    ShortWalk(s, r, q[..j]);
    WalkPrefix(s.mem, r, q, j + 1);
    next := k.mem[t].es[q[j]].frame;
  }

  /** `freePageAt`, but for the counting of table entries. The invariant survives it exactly
      if the page is managed; otherwise nothing gives the frame back. */
  method FreePageAt(k: CoW, r: nat, addr: nat)
    requires k.Valid() && OwnPage(k.S(), r, PathAt(addr))
    modifies k.mem, k.phys, k.phys.bitmap, k.phys.refCount
    ensures k.Ready() && Walk(old(k.S()).mem, r, PathAt(addr)[..3]).Some?
    ensures UnmapStep(old(k.S()), k.S(), Clearing(old(k.S()), r, PathAt(addr)))
    ensures k.Valid() <==> old(Ent(k.S().mem, r, PathAt(addr))).value.managed
  {
    hide Inv, PathAt, UnmapStep, OwnTable;
    ghost var s := k.S();
    var q := PathAt(addr);
    OwnPageTables(s, r, q);
    assert q[..0] == [];
    var p3 := NextTable(k, r, q, 0, r);
    var p2 := NextTable(k, r, q, 1, p3);
    var p1 := NextTable(k, r, q, 2, p2);
    TableOf(s, r, q, p1);
    var e := k.mem[p1].es[q[3]];
    if e.managed {
      k.ReleaseFrame(e.frame);
    }
    k.SetEntry(p1, q[3], EMPTY);
    IsCleared(s, k.S(), Clearing(s, r, q));
    UnmapKeepsInvIff(s, k.S(), Clearing(s, r, q));
  }

  lemma TableOf(s: State, r: nat, q: seq<nat>, t: nat)
    requires |q| == LEVELS && Walk(s.mem, r, q[..3]) == Some(t) && OwnTable(s, r, q[..3], t)
    ensures Clearing(s, r, q).table == t && IsTable(s.mem, t) && r in s.roots
  {}

  lemma IsCleared(s: State, s': State, c: Install)
    requires OwnTable(s, c.root, c.p, c.table) && |c.Path()| == LEVELS && UserPath(c.Path()) && c.i < ENTRIES
    requires c.e == EMPTY && Gone(s, c).present && Gone(s, c).frame < |s.refs| && s.refs[Gone(s, c).frame] > 0
    requires var e := Gone(s, c);
      s' == State(s.mem[c.table := Table(s.mem[c.table].es[c.i := EMPTY])],
                  if e.managed then s.refs[e.frame := Dec64(s.refs[e.frame])] else s.refs,
                  if e.managed && s.refs[e.frame] == 1 then s.used - {e.frame} else s.used, s.roots, s.reserved)
    ensures UnmapStep(s, s', c)
  {}

  // ----------------------------------------------------------------- a range

  /** The pages of the range are gone from r's view, and nothing else changed for anybody. */
  ghost predicate RangeGone(s0: State, s: State, r: nat, start: nat, end: nat) {
    && s.roots == s0.roots
    && (forall a | PageIn(a, start, end) :: (r, PathAt(a)) !in AllViews(s))
    && (forall r': nat, p | PagePath(p) && (r' != r || !RangePath(p, start, end)) ::
          Agree(AllViews(s), AllViews(s0), r', p) && (r' in s0.roots ==> Ent(s.mem, r', p) == Ent(s0.mem, r', p)))
  }

  lemma PageIsGone(s: State, s': State, r: nat, q: seq<nat>)
    requires Inv(s) && OwnPage(s, r, q) && Walk(s.mem, r, q[..3]).Some? && UnmapStep(s, s', Clearing(s, r, q))
    ensures s'.roots == s.roots && (r, q) !in AllViews(s')
    ensures forall r': nat, p | PagePath(p) && (r', p) != (r, q) ::
      Agree(AllViews(s'), AllViews(s), r', p) && (r' in s.roots ==> Ent(s'.mem, r', p) == Ent(s.mem, r', p))
    ensures forall p | PagePath(p) && p != q && OwnPage(s, r, p) :: OwnPage(s', r, p)
  {
    hide Inv, UnmapStep, AllViews;
    var c := Clearing(s, r, q);
    OwnPageTables(s, r, q);
    UnmapViews(s, s', c);
    InUnmaps(s, s', c);
    SameRoots(s, s', c);
    UnmappedAt(AllViews(s), r, q, r, q);
    forall r': nat, p | PagePath(p) && (r', p) != (r, q)
      ensures Agree(AllViews(s'), AllViews(s), r', p) && (r' in s.roots ==> Ent(s'.mem, r', p) == Ent(s.mem, r', p))
    {
      UnmappedAt(AllViews(s), r, q, r', p);
      if r' in s.roots { UnmapEntries(s, s', c, r', p); }
    }
    forall p | PagePath(p) && p != q && OwnPage(s, r, p) ensures OwnPage(s', r, p) {
      forall j | 1 <= j < |p| ensures NotCow(Ent(s'.mem, r, p[..j])) {
        UnmapEntries(s, s', c, r, p[..j]);
        assert NotCow(Ent(s.mem, r, p[..j]));
      }
    }
  }

  lemma SameRoots(s: State, s': State, c: Install)
    requires UnmapStep(s, s', c)
    ensures s'.roots == s.roots
  {}

  /** The range is a range of managed pages in tables of r's own. */
  ghost predicate OwnRange(s: State, r: nat, start: nat, end: nat) {
    forall a: nat | PageIn(a, start, end) :: a < USER_END && ManagedPage(s, r, PathAt(a))
  }

  ghost predicate ManagedPage(s: State, r: nat, q: seq<nat>) {
    OwnPage(s, r, q) && Ent(s.mem, r, q).value.managed
  }

  lemma RangeShrinks(s0: State, s: State, s': State, r: nat, start: nat, addr: nat, next: nat, end: nat)
    requires Inv(s) && start <= addr < end && start % PAGE_SIZE == 0 && addr % PAGE_SIZE == 0 && end % PAGE_SIZE == 0
    requires OwnRange(s, r, addr, end) && RangeGone(s0, s, r, start, addr) && addr < USER_END && next == addr + 4096
    requires OwnPage(s, r, PathAt(addr)) && Walk(s.mem, r, PathAt(addr)[..3]).Some?
    requires UnmapStep(s, s', Clearing(s, r, PathAt(addr)))
    ensures OwnRange(s', r, next, end) && RangeGone(s0, s', r, start, next)
  {
    hide Inv, UnmapStep, PathAt, OwnRange, RangeGone, OwnPage;
    UserHalf(addr);
    PageIsGone(s, s', r, PathAt(addr));
    RestIsOwn(s, s', r, addr, next, end);
    MoreIsGone(s0, s, s', r, start, addr, next);
  }

  lemma RestIsOwn(s: State, s': State, r: nat, addr: nat, next: nat, end: nat)
    requires addr < end && addr % PAGE_SIZE == 0 && OwnRange(s, r, addr, end) && addr < USER_END && next == addr + 4096
    requires PagePath(PathAt(addr)) && s'.roots == s.roots
    requires forall r': nat, p | PagePath(p) && (r', p) != (r, PathAt(addr)) ::
      Agree(AllViews(s'), AllViews(s), r', p) && (r' in s.roots ==> Ent(s'.mem, r', p) == Ent(s.mem, r', p))
    requires forall p | PagePath(p) && p != PathAt(addr) && OwnPage(s, r, p) :: OwnPage(s', r, p)
    ensures OwnRange(s', r, next, end)
  {
    hide AllViews, PathAt, PageIn, OwnPage;
    forall a: nat | PageIn(a, next, end) ensures a < USER_END && ManagedPage(s', r, PathAt(a)) {
      LaterPage(a, addr, end);
      assert ManagedPage(s, r, PathAt(a));
      UserHalf(a);
      if PathAt(a) == PathAt(addr) { PathInjective(a, addr); }
      OwnIsThere(s, r, PathAt(a));
    }
  }

  lemma MoreIsGone(s0: State, s: State, s': State, r: nat, start: nat, addr: nat, next: nat)
    requires start <= addr < USER_END && addr % PAGE_SIZE == 0 && next == addr + 4096
    requires RangeGone(s0, s, r, start, addr)
    requires PagePath(PathAt(addr)) && s'.roots == s.roots && (r, PathAt(addr)) !in AllViews(s')
    requires forall r': nat, p | PagePath(p) && (r', p) != (r, PathAt(addr)) ::
      Agree(AllViews(s'), AllViews(s), r', p) && (r' in s.roots ==> Ent(s'.mem, r', p) == Ent(s.mem, r', p))
    ensures RangeGone(s0, s', r, start, next)
  {
    hide AllViews, PathAt, PageIn, RangePath;
    forall a | PageIn(a, start, next) ensures (r, PathAt(a)) !in AllViews(s') {
      NextPage(a, start, addr);
      if a != addr {
        LowPage(a, start, addr);
        if PathAt(a) == PathAt(addr) { PathInjective(a, addr); }
        assert Agree(AllViews(s'), AllViews(s), r, PathAt(a));
      }
    }
    forall r': nat, p | PagePath(p) && (r' != r || !RangePath(p, start, next))
      ensures Agree(AllViews(s'), AllViews(s0), r', p)
      ensures r' in s0.roots ==> Ent(s'.mem, r', p) == Ent(s0.mem, r', p)
    {
      OutsideShrinks(p, start, addr);
      assert Agree(AllViews(s), AllViews(s0), r', p) && Agree(AllViews(s'), AllViews(s), r', p);
    }
  }

  lemma OwnIsThere(s: State, r: nat, q: seq<nat>)
    requires OwnPage(s, r, q)
    ensures PagePath(q) && r in s.roots && Ent(s.mem, r, q).Some?
  {}

  lemma LaterPage(a: nat, addr: nat, end: nat)
    requires addr < end && addr % PAGE_SIZE == 0 && PageIn(a, addr + 4096, end)
    ensures PageIn(a, addr, end) && a != addr && a % PAGE_SIZE == 0
  {}

  /** `freePages` over managed pages. */
  method FreePages(k: CoW, r: nat, start: nat, end: nat)
    requires k.Valid() && start % PAGE_SIZE == 0 && end % PAGE_SIZE == 0 && OwnRange(k.S(), r, start, end)
    modifies k.mem, k.phys, k.phys.bitmap, k.phys.refCount
    ensures k.Valid() && RangeGone(old(k.S()), k.S(), r, start, end)
  {
    hide Inv, PathAt, UnmapStep, OwnRange, RangeGone, PageIn, OwnPage;
    ghost var s0 := k.S();
    NothingGone(s0, r, start, end);
    var addr := start;
    while addr < end
      invariant start <= addr && addr % PAGE_SIZE == 0 && (addr <= end || addr == start)
      invariant k.Valid() && OwnRange(k.S(), r, addr, end)
      invariant RangeGone(s0, k.S(), r, start, if addr <= end then addr else end)
      decreases end - addr
    {
      ghost var s := k.S();
      FirstIsOwn(s, r, addr, end);
      FreePageAt(k, r, addr);
      RangeShrinks(s0, s, k.S(), r, start, addr, addr + 4096, end);
      addr := addr + 4096;
      assert addr <= end by { WholePages(addr - 4096, end); }
    }
  }

  lemma WholePages(addr: nat, end: nat)
    requires addr < end && addr % PAGE_SIZE == 0 && end % PAGE_SIZE == 0
    ensures addr + 4096 <= end && (addr + 4096) % PAGE_SIZE == 0
  {}

  lemma FirstIsOwn(s: State, r: nat, addr: nat, end: nat)
    requires OwnRange(s, r, addr, end) && addr < end && addr % PAGE_SIZE == 0
    ensures addr < USER_END && OwnPage(s, r, PathAt(addr)) && Ent(s.mem, r, PathAt(addr)).Some?
    ensures Ent(s.mem, r, PathAt(addr)).value.managed
  {
    assert PageIn(addr, addr, end);
    assert ManagedPage(s, r, PathAt(addr));
  }

  lemma NothingGone(s: State, r: nat, start: nat, end: nat)
    ensures RangeGone(s, s, r, start, if start <= end then start else end)
  {
    var to := if start <= end then start else end;
    forall a ensures !PageIn(a, start, to) {}
  }

  /** `YY_VirtualFree` calls `freePages` with the size for the end: it unmaps the range it is
      asked for exactly if that starts at address 0, or is empty. */
  lemma FreedRangeIff(start: nat, size: nat)
    requires start % PAGE_SIZE == 0 && size % PAGE_SIZE == 0
    ensures (forall a :: PageIn(a, start, size) <==> PageIn(a, start, start + size)) <==> start == 0 || size == 0
  {
    if start > 0 && size > 0 {
      var last := start + size - PAGE_SIZE;
      LastOfRange(start, size);
      assert PageIn(last, start, start + size) && !PageIn(last, start, size);
    } else if size == 0 {
      forall a ensures !PageIn(a, start, size) && !PageIn(a, start, start + size) {}
    }
  }

  lemma LastOfRange(start: nat, size: nat)
    requires start % PAGE_SIZE == 0 && size % PAGE_SIZE == 0 && start > 0 && size > 0
    ensures start >= PAGE_SIZE && size >= PAGE_SIZE && (start + size - PAGE_SIZE) % PAGE_SIZE == 0
  {}
}
