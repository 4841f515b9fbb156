/**
 `YY_ExecuteBinary`: the caller's user half is emptied, the segments of the binary are
 reserved and mapped, and room for the arguments after them. The system call ends with
 the caller seeing exactly those pages.
 */
module Exec {
  import opened Basics
  import opened PageTables
  import opened AddressSpaces
  import opened CowExit
  import opened CowKernel
  import opened Paging
  import opened VmMap
  import opened Elf

  /** A segment is for users, writable and executable as its header says. */
  lemma SegmentRights(flags: bv32)
    ensures FlagsOf(MappingFlags(flags)) == Flags(true, flags & 2 != 0, false, flags & 1 == 0)
  {}

  /** The page is there with these rights. */
  ghost predicate HasRights(s: State, r: nat, q: seq<nat>, f: Flags) {
    (r, q) in AllViews(s) && AllViews(s)[(r, q)].rights == Rights(f.user, f.writable, !f.noExecute)
  }

  /** The path of a page of the first n areas. */
  ghost predicate InImage(p: seq<nat>, areas: seq<ElfMemoryArea>, n: nat) {
    exists i: nat :: i < n && i < |areas| && RangePath(p, areas[i].memoryBase, areas[i].memoryLimit)
  }

  /** From s0 on, r has come to see exactly the pages of the first n areas, with the rights
      of those, and nobody else sees anything new. */
  ghost predicate Imaged(s0: State, s: State, r: nat, areas: seq<ElfMemoryArea>, n: nat)
    requires n <= |areas|
  {
    && s.roots == s0.roots
    && (forall p | PagePath(p) :: (r, p) in AllViews(s) <==> InImage(p, areas, n))
    && (forall i: nat, a | i < n && PageIn(a, areas[i].memoryBase, areas[i].memoryLimit) ::
          HasRights(s, r, PathAt(a), FlagsOf(areas[i].mappingFlags)))
    && (forall r': nat, p | r' in s0.roots && r' != r && PagePath(p) :: Agree(AllViews(s), AllViews(s0), r', p))
  }

  /** Nobody but r sees anything new. */
  ghost predicate OthersSame(s0: State, s: State, r: nat) {
    forall r', p | r' in s0.roots && r' != r && PagePath(p) :: Agree(AllViews(s), AllViews(s0), r', p)
  }

  lemma ImagedForOne(s0: State, s: State, r: nat, areas: seq<ElfMemoryArea>, n: nat)
    requires n <= |areas| && Imaged(s0, s, r, areas, n)
    ensures s.roots == s0.roots && OthersSame(s0, s, r)
  {}

  lemma OnlyInRange(s0: State, s: State, s': State, r: nat, start: nat, end: nat)
    requires s.roots == s0.roots && OthersSame(s0, s, r) && ElsewhereSame(s, s', r, start, end)
    ensures OthersSame(s0, s', r)
  {
    hide AllViews, RangePath;
    forall r', p | r' in s0.roots && r' != r && PagePath(p) ensures Agree(AllViews(s'), AllViews(s0), r', p) {
      assert Agree(AllViews(s'), AllViews(s), r', p) && Agree(AllViews(s), AllViews(s0), r', p);
    }
  }

  ghost predicate NeverCow(s: State, r: nat) {
    forall p | PagePath(p) :: NoCow(s, r, p)
  }

  // ------------------------------------------------------- the empty start

  lemma AfterExit(s: State, s': State, r: nat, areas: seq<ElfMemoryArea>)
    requires Inv(s) && ExitStep(s, s', r)
    ensures Imaged(s, s', r, areas, 0) && NeverCow(s', r)
  {
    assert r in Exits(s, s') by { InvParts(s); }
    assert s'.roots == s.roots;
    hide Inv, ExitStep, Exits, AllViews;
    ExitRemovesViews(s, s', r);
    forall r': nat, p ensures (r', p) in AllViews(s') <==> (r', p) in AllViews(s) && r' != r {
      RemovedAt(AllViews(s), r, r', p);
    }
    forall r': nat, p | r' in s.roots && r' != r && PagePath(p) ensures Agree(AllViews(s'), AllViews(s), r', p) {
      RemovedAt(AllViews(s), r, r', p);
    }
    RootOfExit(s, s', r);
    forall p | PagePath(p) ensures NoCow(s', r, p) {
      forall j | 1 <= j <= |p| ensures NotCow(Ent(s'.mem, r, p[..j])) { ExitEntries(s, s', r, r, p[..j]); }
    }
  }

  lemma RootOfExit(s: State, s': State, r: nat)
    requires ExitStep(s, s', r)
    ensures r in s.roots
  {}

  // ------------------------------------------------------------- one area

  /** The pages of a range get their rights, and nothing else changes for anybody. */
  ghost predicate RangeGiven(s: State, s': State, r: nat, start: nat, end: nat, f: Flags) {
    && s'.roots == s.roots && r in s.roots
    && (forall a | PageIn(a, start, end) :: HasRights(s', r, PathAt(a), f))
    && (forall r', p | r' in s.roots && PagePath(p) && (r' != r || !RangePath(p, start, end)) ::
          Agree(AllViews(s'), AllViews(s), r', p))
  }

  /** A page of area i does not belong to area n. */
  predicate ApartAt(areas: seq<ElfMemoryArea>, n: nat, i: nat, a: nat)
    requires i < |areas| && n < |areas|
  {
    PageIn(a, areas[i].memoryBase, areas[i].memoryLimit) ==>
      a < USER_END && !PageIn(a, areas[n].memoryBase, areas[n].memoryLimit)
  }

  /** No page of area n belongs to an earlier one. */
  ghost predicate ApartFromEarlier(areas: seq<ElfMemoryArea>, n: nat)
    requires n < |areas|
  {
    areas[n].memoryLimit <= USER_END && forall i: nat, a: nat | i < n :: ApartAt(areas, n, i, a)
  }

  lemma NotInRange(areas: seq<ElfMemoryArea>, n: nat, i: nat, a: nat)
    requires n < |areas| && ApartFromEarlier(areas, n) && i < n
    requires PageIn(a, areas[i].memoryBase, areas[i].memoryLimit)
    ensures PagePath(PathAt(a)) && !RangePath(PathAt(a), areas[n].memoryBase, areas[n].memoryLimit)
  {
    hide PathAt;
    assert ApartAt(areas, n, i, a);
    UserHalf(a);
    if b :| PageIn(b, areas[n].memoryBase, areas[n].memoryLimit) && PathAt(b) == PathAt(a) { PathInjective(a, b); }
  }

  lemma ImageGrows(s0: State, s: State, s': State, r: nat, areas: seq<ElfMemoryArea>, n: nat)
    requires n < |areas| && Imaged(s0, s, r, areas, n) && ApartFromEarlier(areas, n)
    requires RangeGiven(s, s', r, areas[n].memoryBase, areas[n].memoryLimit, FlagsOf(areas[n].mappingFlags))
    ensures Imaged(s0, s', r, areas, n + 1)
  {
    hide PathAt, PageIn, AllViews, HasRights, FlagsOf, RangePath, ApartFromEarlier;
    var base, limit := areas[n].memoryBase, areas[n].memoryLimit;
    forall i: nat, a | i < n + 1 && PageIn(a, areas[i].memoryBase, areas[i].memoryLimit)
      ensures HasRights(s', r, PathAt(a), FlagsOf(areas[i].mappingFlags))
    {
      if i < n {
        NotInRange(areas, n, i, a);
        assert Agree(AllViews(s'), AllViews(s), r, PathAt(a));
        RightsStay(s, s', r, PathAt(a), FlagsOf(areas[i].mappingFlags));
      }
    }
    forall p | PagePath(p) ensures (r, p) in AllViews(s') <==> InImage(p, areas, n + 1) {
      if RangePath(p, base, limit) {
        GivenIsThere(s, s', r, base, limit, FlagsOf(areas[n].mappingFlags), p);
      } else {
        assert Agree(AllViews(s'), AllViews(s), r, p);
      }
      assert InImage(p, areas, n + 1) <==> InImage(p, areas, n) || RangePath(p, base, limit) by {
        NextInImage(p, areas, n);
      }
    }
    forall r': nat, p | r' in s0.roots && r' != r && PagePath(p) ensures Agree(AllViews(s'), AllViews(s0), r', p) {
      assert Agree(AllViews(s'), AllViews(s), r', p) && Agree(AllViews(s), AllViews(s0), r', p);
    }
  }

  lemma NextInImage(p: seq<nat>, areas: seq<ElfMemoryArea>, n: nat)
    requires n < |areas|
    ensures InImage(p, areas, n + 1) <==>
      InImage(p, areas, n) || RangePath(p, areas[n].memoryBase, areas[n].memoryLimit)
  {}

  lemma RightsStay(s: State, s': State, r: nat, q: seq<nat>, f: Flags)
    requires HasRights(s, r, q, f) && Agree(AllViews(s'), AllViews(s), r, q)
    ensures HasRights(s', r, q, f)
  {}

  lemma GivenIsThere(s: State, s': State, r: nat, start: nat, end: nat, f: Flags, p: seq<nat>)
    requires RangeGiven(s, s', r, start, end, f) && RangePath(p, start, end)
    ensures (r, p) in AllViews(s')
  {
    var a :| PageIn(a, start, end) && PathAt(a) == p;
    assert HasRights(s', r, PathAt(a), f);
  }

  lemma SegmentIsGiven(s: State, s': State, r: nat, base: nat, limit: nat, f: Flags)
    requires r in s.roots && s'.roots == s.roots
    requires forall a | PageIn(a, base, limit) :: SegmentPage(s, s', r, PathAt(a), f)
    requires forall r', p | r' in s.roots && PagePath(p) && (r' != r || !RangePath(p, base, limit)) ::
      SamePage(s, s', r', p)
    ensures RangeGiven(s, s', r, base, limit, f)
  {
    hide PathAt, AllViews, PageIn, RangePath;
    forall a | PageIn(a, base, limit) ensures HasRights(s', r, PathAt(a), f) {
      assert SegmentPage(s, s', r, PathAt(a), f);
    }
    forall r', p | r' in s.roots && PagePath(p) && (r' != r || !RangePath(p, base, limit))
      ensures Agree(AllViews(s'), AllViews(s), r', p)
    {
      assert SamePage(s, s', r', p);
    }
  }

  lemma PagesAreGiven(s: State, s': State, r: nat, base: nat, limit: nat, f: Flags)
    requires r in s.roots && RangeMapped(s, s', r, base, limit, f)
    ensures RangeGiven(s, s', r, base, limit, f)
  {
    hide PathAt, AllViews, PageIn, RangePath;
    forall a | PageIn(a, base, limit) ensures HasRights(s', r, PathAt(a), f) {
      assert PageDone(s, s', r, PathAt(a), f);
    }
    forall r', p | r' in s.roots && PagePath(p) && (r' != r || !RangePath(p, base, limit))
      ensures Agree(AllViews(s'), AllViews(s), r', p)
    {
      assert SamePage(s, s', r', p);
    }
  }

  lemma StillNever(s: State, s': State, r: nat)
    requires NeverCow(s, r) && StaysNoCow(s, s', r)
    ensures NeverCow(s', r)
  {}

  lemma NeverInRange(s: State, r: nat, base: nat, limit: nat)
    requires NeverCow(s, r) && limit <= USER_END
    ensures forall a | PageIn(a, base, limit) :: NoCow(s, r, PathAt(a))
  {
    forall a | PageIn(a, base, limit) ensures NoCow(s, r, PathAt(a)) { UserHalf(a); }
  }

  /** `ElfMemoryArea::map` for the next area. */
  method MapArea(k: CoW, r: nat, areas: seq<ElfMemoryArea>, n: nat, residues: nat -> seq<bv8>, ghost s0: State)
    returns (ok: bool)
    requires k.Valid() && r in k.roots && n < |areas| && forall a :: |residues(a)| == PAGE_SIZE
    requires areas[n].memoryBase % PAGE_SIZE == 0 && areas[n].memoryLimit % PAGE_SIZE == 0
    requires areas[n].memoryBase <= areas[n].memoryLimit && ApartFromEarlier(areas, n)
    requires Imaged(s0, k.S(), r, areas, n) && NeverCow(k.S(), r)
    modifies k.mem, k.phys, k.phys.bitmap, k.phys.refCount
    ensures k.Valid()
    ensures ok ==> Imaged(s0, k.S(), r, areas, n + 1) && NeverCow(k.S(), r)
    ensures !ok ==> FreeFrames(k.S()) == {}
    ensures OthersSame(s0, k.S(), r)
  {
    hide Inv, FreeFrames, ElsewhereSame, OthersSame, Imaged, NeverCow, FlagsOf, SegmentPage, SamePage, RangePath,
      PathAt, PageIn, NoCow;
    ghost var s := k.S();
    var base, limit, f := areas[n].memoryBase, areas[n].memoryLimit, FlagsOf(areas[n].mappingFlags);
    NeverInRange(s, r, base, limit);
    ok := MapSegment(k, r, base, limit, f, residues);
    if !ok {
      ImagedForOne(s0, s, r, areas, n);
      OnlyInRange(s0, s, k.S(), r, base, limit);
      return;
    }
    SegmentIsGiven(s, k.S(), r, base, limit, f);
    ImageGrows(s0, s, k.S(), r, areas, n);
    StillNever(s, k.S(), r);
    ImagedForOne(s0, k.S(), r, areas, n + 1);
  }

  // ------------------------------------------------------------- all areas

  /** What the model asks of the areas: page ranges that stand for load segments, none of
      which ends above the user half but within the range of the allocator. */
  predicate Mappable(areas: seq<ElfMemoryArea>) {
    forall i: nat :: i < |areas| ==>
      && areas[i].isRequired && areas[i].memoryBase <= areas[i].memoryLimit < WORD_LIMIT
      && areas[i].memoryBase % PAGE_SIZE == 0 && areas[i].memoryLimit % PAGE_SIZE == 0
      && (areas[i].memoryLimit <= USER_END || UserAreas.USER_LIMIT <= areas[i].memoryLimit)
  }

  lemma AreaIsMappable(areas: seq<ElfMemoryArea>, n: nat)
    requires Mappable(areas) && n < |areas|
    ensures areas[n].memoryBase <= areas[n].memoryLimit < WORD_LIMIT
    ensures areas[n].memoryBase % PAGE_SIZE == 0 && areas[n].memoryLimit % PAGE_SIZE == 0
    ensures (areas[n].memoryLimit - areas[n].memoryBase) % PAGE_SIZE == 0
    ensures areas[n].memoryLimit <= USER_END || UserAreas.USER_LIMIT <= areas[n].memoryLimit
  {}

  /** Areas from accepted headers are page ranges. */
  lemma AcceptedIsMappable(entries: seq<ProgramHeaderEntry>, areas: seq<ElfMemoryArea>)
    requires |areas| == |entries| && forall i: nat :: i < |entries| ==>
      && Passes(entries, i) && entries[i].kind != ELF_NULL && areas[i] == AreaOf(entries[i]) && entries[i].NoWrap()
      && areas[i].memoryLimit <= USER_END
    ensures Mappable(areas)
  {
    forall i: nat | i < |areas|
      ensures areas[i].isRequired && areas[i].memoryBase <= areas[i].memoryLimit <= USER_END
      ensures areas[i].memoryBase % PAGE_SIZE == 0 && areas[i].memoryLimit % PAGE_SIZE == 0
    {
      assert Passes(entries, i);
      EntryFacts(entries[i]);
    }
  }

  /** All free areas start on a page. */
  ghost predicate OffsetsAligned(s: seq<FreeList.Area>) {
    forall i: nat :: i < |s| ==> s[i].offset % PAGE_SIZE == 0
  }

  lemma CutStaysAligned(s: seq<FreeList.Area>, addr: nat, size: nat, s': seq<FreeList.Area>)
    requires OffsetsAligned(s) && UserAreas.CutSomewhere(s, addr, size, s') && addr % PAGE_SIZE == 0
    requires size % PAGE_SIZE == 0
    ensures OffsetsAligned(s')
  {
    var k: nat :| UserAreas.Spans(s, addr, size, k) && s' == UserAreas.CutOut(s, k, addr, size);
    var m := UserAreas.Remainder(s[k], addr, size);
    SumOfPages(addr, size);
    assert OffsetsAligned(m);
    hide UserAreas.Remainder;
    forall i: nat | i < |s'| ensures s'[i].offset % PAGE_SIZE == 0 {
      assert s'[i] == if i < k then s[i] else if i < k + |m| then m[i - k] else s[i - |m| + 1];
    }
  }

  lemma SumOfPages(a: nat, b: nat)
    requires a % PAGE_SIZE == 0 && b % PAGE_SIZE == 0
    ensures (a + b) % PAGE_SIZE == 0
  {}

  /** What can be reserved ends within the range of the allocator. */
  lemma ReservedIsInside(s: seq<FreeList.Area>, addr: nat, size: nat, s': seq<FreeList.Area>)
    requires UserAreas.Ordered(s) && UserAreas.CutSomewhere(s, addr, size, s')
    requires FreeList.Free(s) <= FreeList.Range(UserAreas.USER_RANGE)
    ensures addr + size < UserAreas.USER_LIMIT
  {
    var k: nat :| UserAreas.Spans(s, addr, size, k) && s' == UserAreas.CutOut(s, k, addr, size);
    FreeList.Held(s, k, s[k].End() - 1);
  }

  /** The first n areas end within the user half. */
  predicate LowUpTo(areas: seq<ElfMemoryArea>, n: nat) {
    n <= |areas| && forall i: nat :: i < n ==> areas[i].memoryLimit <= USER_END
  }

  lemma ReservedIsApart(s: seq<FreeList.Area>, before: seq<FreeList.Area>, areas: seq<ElfMemoryArea>, n: nat)
    requires n < |areas| && Without(s, before, areas, n) && LowUpTo(areas, n + 1)
    requires areas[n].memoryBase <= areas[n].memoryLimit
    requires var r := FreeList.Range(FreeList.Area(areas[n].memoryBase, areas[n].memoryLimit - areas[n].memoryBase));
      r <= FreeList.Free(before)
    ensures ApartFromEarlier(areas, n)
  {
    var area := FreeList.Area(areas[n].memoryBase, areas[n].memoryLimit - areas[n].memoryBase);
    forall i: nat, a: nat | i < n ensures ApartAt(areas, n, i, a) {
      if PageIn(a, areas[i].memoryBase, areas[i].memoryLimit) {
        assert areas[i].memoryLimit <= USER_END;
        assert InSegment(areas, n, a);
        assert a in Segments(areas, n);
        assert a !in FreeList.Free(before) && a !in FreeList.Range(area);
      }
    }
  }

  /** What became of the areas so far, with one more outcome known. */
  lemma ReachedSame(s: seq<FreeList.Area>, now: seq<FreeList.Area>, areas: seq<ElfMemoryArea>, nodes: seq<bool>,
      mapped: seq<bool>, n: nat, ok: bool)
    requires |nodes| == |areas| == |mapped| && n < |areas| && Reached(s, now, areas, nodes, mapped, n)
    ensures Reached(s, now, areas, nodes, mapped[n := ok], n)
  {
    var mapped' := mapped[n := ok];
    if Loadable(areas) && OpenFrom(s, PAGE_SIZE) {
      forall j: nat | j < n ensures StepSucceeds(areas, nodes, mapped', j) {
        assert StepSucceeds(areas, nodes, mapped, j);
      }
    }
  }

  predicate AllTrue(mapped: seq<bool>) {
    forall i: nat :: i < |mapped| ==> mapped[i]
  }

  lemma StillTrue(mapped: seq<bool>, n: nat, ok: bool)
    requires AllTrue(mapped) && n < |mapped|
    ensures ok ==> AllTrue(mapped[n := ok])
  {}

  lemma IsStuck(s: seq<FreeList.Area>, now: seq<FreeList.Area>, areas: seq<ElfMemoryArea>, nodes: seq<bool>, n: nat)
    requires n < |areas| == |nodes| && Without(s, now, areas, n) && areas[n].memoryBase <= areas[n].memoryLimit
    requires !UserAreas.CanCut(now, areas[n].memoryBase, areas[n].memoryLimit - areas[n].memoryBase, nodes[n])
    ensures StuckAt(s, now, areas, nodes, n)
  {}

  /** One step of `Elf::load`: reserve the area, then map it. */
  method LoadArea(areas: seq<ElfMemoryArea>, n: nat, usralloc: UserAreas.UserVirtualAllocator, k: CoW, r: nat,
                  nodes: seq<bool>, residues: nat -> seq<bv8>, ghost s: seq<FreeList.Area>, ghost s0: State,
                  ghost mapped0: seq<bool>)
    returns (done: bool, ghost mapped: seq<bool>)
    requires Mappable(areas) && n < |areas| == |nodes| == |mapped0| && forall a :: |residues(a)| == PAGE_SIZE
    requires usralloc.Valid() && OffsetsAligned(usralloc.Areas()) && LowUpTo(areas, n)
    requires Reached(s, usralloc.Areas(), areas, nodes, mapped0, n)
    requires k.Valid() && r in k.roots && Imaged(s0, k.S(), r, areas, n) && NeverCow(k.S(), r)
    requires AllTrue(mapped0) && OthersSame(s0, k.S(), r)
    modifies usralloc, usralloc.repr, k.mem, k.phys, k.phys.bitmap, k.phys.refCount
    ensures usralloc.Valid() && fresh(usralloc.repr - old(usralloc.repr)) && old(usralloc.repr) <= usralloc.repr
    ensures |mapped| == |areas| && k.Valid() && OthersSame(s0, k.S(), r)
    ensures done ==> Reached(s, usralloc.Areas(), areas, nodes, mapped, n + 1) && AllTrue(mapped)
    ensures done ==> OffsetsAligned(usralloc.Areas()) && LowUpTo(areas, n + 1)
    ensures done ==> Imaged(s0, k.S(), r, areas, n + 1) && NeverCow(k.S(), r)
    ensures !done ==> (AllTrue(mapped) && StuckAt(s, usralloc.Areas(), areas, nodes, n)) || FreeFrames(k.S()) == {}
    ensures !done ==> !(Loadable(areas) && OpenFrom(s, PAGE_SIZE) && AllSucceed(areas, nodes, mapped))
  {
    hide *;
    ghost var before := usralloc.Areas();
    AreaIsMappable(areas, n);
    var base, size := areas[n].memoryBase, areas[n].memoryLimit - areas[n].memoryBase;
    usralloc.ListIsOrdered();
    usralloc.InRange();
    mapped := mapped0;
    ReachNext(s, before, areas, nodes, mapped, n);
    done := usralloc.Reserve(base, size, nodes[n]);
    if !done {
      FreeSoFar(s, before, areas, nodes, mapped, n);
      IsStuck(s, before, areas, nodes, n);
      return;
    }
    ReservedIsInside(before, base, size, usralloc.Areas());
    LowerNext(areas, n);
    CutStaysAligned(before, base, size, usralloc.Areas());
    FreeSoFar(s, before, areas, nodes, mapped, n);
    ReservedIsApart(s, before, areas, n);
    done := MapArea(k, r, areas, n, residues, s0);
    ReachedSame(s, before, areas, nodes, mapped, n, done);
    mapped := mapped[n := done];
    StillTrue(mapped0, n, done);
    ReachNext(s, before, areas, nodes, mapped, n);
  }

  lemma LowerNext(areas: seq<ElfMemoryArea>, n: nat)
    requires LowUpTo(areas, n) && n < |areas| && areas[n].memoryBase <= areas[n].memoryLimit
    requires areas[n].memoryLimit <= USER_END || UserAreas.USER_LIMIT <= areas[n].memoryLimit
    requires areas[n].memoryBase + (areas[n].memoryLimit - areas[n].memoryBase) < UserAreas.USER_LIMIT
    ensures LowUpTo(areas, n + 1)
  {}

  lemma FreeSoFar(s: seq<FreeList.Area>, now: seq<FreeList.Area>, areas: seq<ElfMemoryArea>, nodes: seq<bool>,
      mapped: seq<bool>, n: nat)
    requires |nodes| == |areas| == |mapped| && n <= |areas| && Reached(s, now, areas, nodes, mapped, n)
    ensures Without(s, now, areas, n)
  {}

  /** `Elf::load`, into an empty user half. `nodes[i]` says whether the heap had a node at
      step i, `mapped[i]` whether the pages of area i could be had: if not, no frame is left. */
  method Load(areas: seq<ElfMemoryArea>, usralloc: UserAreas.UserVirtualAllocator, k: CoW, r: nat, nodes: seq<bool>,
              residues: nat -> seq<bv8>, ghost s0: State)
    returns (done: bool, ghost mapped: seq<bool>)
    requires Mappable(areas) && |nodes| == |areas| && forall a :: |residues(a)| == PAGE_SIZE
    requires usralloc.Valid() && OffsetsAligned(usralloc.Areas())
    requires k.Valid() && r in k.roots && Imaged(s0, k.S(), r, areas, 0) && NeverCow(k.S(), r)
    modifies usralloc, usralloc.repr, k.mem, k.phys, k.phys.bitmap, k.phys.refCount
    ensures usralloc.Valid() && fresh(usralloc.repr - old(usralloc.repr)) && old(usralloc.repr) <= usralloc.repr
    ensures |mapped| == |areas| && k.Valid() && OthersSame(s0, k.S(), r)
    ensures AllTrue(mapped) || FreeFrames(k.S()) == {}
    ensures !done ==>
      FreeFrames(k.S()) == {} || exists n: nat :: StuckAt(old(usralloc.Areas()), usralloc.Areas(), areas, nodes, n)
    ensures done ==> Without(old(usralloc.Areas()), usralloc.Areas(), areas, |areas|)
    ensures done ==> OffsetsAligned(usralloc.Areas()) && LowUpTo(areas, |areas|)
    ensures done ==> Imaged(s0, k.S(), r, areas, |areas|) && NeverCow(k.S(), r)
    ensures Loadable(areas) && OpenFrom(old(usralloc.Areas()), PAGE_SIZE) ==>
      (done <==> AllSucceed(areas, nodes, mapped))
  {
    hide Inv, CoW.Ready, Imaged, NeverCow, Reached, Mappable, OffsetsAligned, LowUpTo, Without, AllSucceed, Loadable,
      OpenFrom, StuckAt, FreeFrames, OthersSame, UserAreas.UserVirtualAllocator.Valid;
    ghost var s := usralloc.Areas();
    mapped := seq(|areas|, _ => true);
    ReachedStart(s, areas, nodes, mapped);
    NoneLow(areas);
    ImagedForOne(s0, k.S(), r, areas, 0);
    for i := 0 to |areas|
      invariant |mapped| == |areas| && AllTrue(mapped)
      invariant usralloc.Valid() && fresh(usralloc.repr - old(usralloc.repr)) && old(usralloc.repr) <= usralloc.repr
      invariant Reached(s, usralloc.Areas(), areas, nodes, mapped, i)
      invariant OffsetsAligned(usralloc.Areas()) && LowUpTo(areas, i)
      invariant k.Valid() && r in k.roots && Imaged(s0, k.S(), r, areas, i) && NeverCow(k.S(), r)
      invariant OthersSame(s0, k.S(), r)
    {
      done, mapped := LoadArea(areas, i, usralloc, k, r, nodes, residues, s, s0, mapped);
      if !done { return; }
    }
    ReachedEnd(s, usralloc.Areas(), areas, nodes, mapped);
    done := true;
  }

  lemma NoneLow(areas: seq<ElfMemoryArea>)
    ensures LowUpTo(areas, 0)
  {}

  // ------------------------------------------------------------ the whole call

  /** The pages of the arguments: for users, writable and executable. */
  function ArgumentArea(start: nat, size: nat): ElfMemoryArea {
    ElfMemoryArea(7, start, start, start + size, 0, 0, true)
  }

  /** Free is all that neither a segment nor the arguments take. */
  ghost predicate LeftFree(now: seq<FreeList.Area>, areas: seq<ElfMemoryArea>, start: nat, size: nat) {
    FreeList.Free(now) ==
      FreeList.Range(UserAreas.USER_RANGE) - Segments(areas, |areas|) - FreeList.Range(FreeList.Area(start, size))
  }

  /** Where `alloc` found room for the arguments. */
  lemma RoomForArguments(s: seq<FreeList.Area>, before: seq<FreeList.Area>, now: seq<FreeList.Area>,
      areas: seq<ElfMemoryArea>, start: nat, size: nat)
    requires s == [UserAreas.USER_RANGE] && Without(s, before, areas, |areas|) && OffsetsAligned(before)
    requires exists k: nat :: UserAreas.StrictBestFit(before, size, k) && start == before[k].offset
    requires FreeList.Range(FreeList.Area(start, size)) <= FreeList.Free(before)
    requires FreeList.Free(now) == FreeList.Free(before) - FreeList.Range(FreeList.Area(start, size))
    ensures start % PAGE_SIZE == 0 && Apart(areas, start, size) && LeftFree(now, areas, start, size)
    ensures FreeList.Range(FreeList.Area(start, size)) !! Segments(areas, |areas|)
  {
    FreeList.FreeOfOne(UserAreas.USER_RANGE);
    ArgumentsApart(areas, start, size);
  }

  lemma ArgumentsAreApart(areas: seq<ElfMemoryArea>, start: nat, size: nat)
    requires FreeList.Range(FreeList.Area(start, size)) !! Segments(areas, |areas|)
    requires LowUpTo(areas, |areas|) && start + size <= USER_END
    ensures ApartFromEarlier(areas + [ArgumentArea(start, size)], |areas|)
  {
    var all, n := areas + [ArgumentArea(start, size)], |areas|;
    var area := FreeList.Area(start, size);
    forall i: nat, a: nat | i < n ensures ApartAt(all, n, i, a) {
      assert all[i] == areas[i];
      if PageIn(a, areas[i].memoryBase, areas[i].memoryLimit) {
        assert areas[i].memoryLimit <= USER_END;
        assert InSegment(areas, n, a);
        assert a in Segments(areas, n);
        assert a !in FreeList.Range(area);
      }
    }
  }

  lemma ImageOfMore(s0: State, s: State, r: nat, areas: seq<ElfMemoryArea>, more: seq<ElfMemoryArea>)
    requires Imaged(s0, s, r, areas, |areas|)
    ensures Imaged(s0, s, r, areas + more, |areas|)
  {
    hide AllViews, HasRights, PageIn, RangePath, PathAt, FlagsOf;
    var all := areas + more;
    forall p | PagePath(p) ensures InImage(p, all, |areas|) <==> InImage(p, areas, |areas|) {
      if i: nat :| i < |areas| && RangePath(p, areas[i].memoryBase, areas[i].memoryLimit) { assert all[i] == areas[i]; }
    }
    forall i: nat, a | i < |areas| && PageIn(a, all[i].memoryBase, all[i].memoryLimit)
      ensures HasRights(s, r, PathAt(a), FlagsOf(all[i].mappingFlags))
    {
      assert all[i] == areas[i];
    }
  }

  /** `mapPages` for the arguments. */
  method MapArguments(areas: seq<ElfMemoryArea>, k: CoW, r: nat, start: nat, size: nat, residues: nat -> seq<bv8>,
                      ghost s0: State)
    returns (ok: bool)
    requires k.Valid() && r in k.roots && forall a :: |residues(a)| == PAGE_SIZE
    requires start % PAGE_SIZE == 0 && size % PAGE_SIZE == 0 && start + size <= USER_END && LowUpTo(areas, |areas|)
    requires FreeList.Range(FreeList.Area(start, size)) !! Segments(areas, |areas|)
    requires Imaged(s0, k.S(), r, areas, |areas|) && NeverCow(k.S(), r)
    modifies k.mem, k.phys, k.phys.bitmap, k.phys.refCount
    ensures k.Valid() && (!ok ==> FreeFrames(k.S()) == {}) && OthersSame(s0, k.S(), r)
    ensures ok ==> Imaged(s0, k.S(), r, areas + [ArgumentArea(start, size)], |areas| + 1)
    ensures ok ==> forall a | PageIn(a, start, start + size) ::
      HasRights(k.S(), r, PathAt(a), Flags(true, true, false, false))
  {
    hide Inv, FreeFrames, HasRights, FlagsOf, ElsewhereSame, OthersSame, CoW.Ready, Imaged, NeverCow, RangeMapped,
      RangePath, PathAt, PageIn, NoCow, Segments, LowUpTo, StaysNoCow, FreeList.Range;
    ghost var s := k.S();
    SumOfPages(start, size);
    NeverInRange(s, r, start, start + size);
    ok := MapNewPages(k, r, start, start + size, FlagsOf(7), residues);
    ArgumentRights();
    if ok {
      PagesAreGiven(s, k.S(), r, start, start + size, FlagsOf(7));
      ArgumentsImaged(s0, s, k.S(), r, areas, start, size);
      ImagedForOne(s0, k.S(), r, areas + [ArgumentArea(start, size)], |areas| + 1);
    } else {
      ImagedForOne(s0, s, r, areas, |areas|);
      OnlyInRange(s0, s, k.S(), r, start, start + size);
    }
  }

  lemma ArgumentRights()
    ensures FlagsOf(7) == Flags(true, true, false, false)
  {}

  lemma ArgumentsImaged(s0: State, s: State, s': State, r: nat, areas: seq<ElfMemoryArea>, start: nat, size: nat)
    requires Imaged(s0, s, r, areas, |areas|) && r in s.roots && LowUpTo(areas, |areas|) && start + size <= USER_END
    requires RangeMapped(s, s', r, start, start + size, FlagsOf(7))
    requires FreeList.Range(FreeList.Area(start, size)) !! Segments(areas, |areas|)
    ensures Imaged(s0, s', r, areas + [ArgumentArea(start, size)], |areas| + 1)
  {
    hide Imaged, RangeMapped, Segments, LowUpTo, ApartFromEarlier, FreeList.Range;
    PagesAreGiven(s, s', r, start, start + size, FlagsOf(7));
    ArgumentsAreApart(areas, start, size);
    ImageOfMore(s0, s, r, areas, [ArgumentArea(start, size)]);
    ImageGrows(s0, s, s', r, areas + [ArgumentArea(start, size)], |areas|);
  }

  lemma FreshIsAligned()
    ensures OffsetsAligned([UserAreas.USER_RANGE])
  {}

  datatype ExecOutcome = NotLoaded | NoRoom | AboveUserHalf | NotMapped | Loaded

  /** `YY_ExecuteBinary` from the point of no return, for a parsed binary. Up to the jump the
      caller has come to see exactly the segments, with their rights, and the argument pages,
      which overlap none of them; and nobody else sees anything new. Where the arguments would
      be above the user half the model stops. */
  method ExecuteBinary(areas: seq<ElfMemoryArea>, k: CoW, r: nat, nodes: seq<bool>, argsSize: nat,
                       residues: nat -> seq<bv8>)
    returns (outcome: ExecOutcome, usralloc: UserAreas.UserVirtualAllocator, argsStorage: nat)
    requires Mappable(areas) && |nodes| == |areas| && forall a :: |residues(a)| == PAGE_SIZE
    requires k.Valid() && r in k.roots && argsSize % PAGE_SIZE == 0
    modifies k.mem, k.phys, k.phys.bitmap, k.phys.refCount
    ensures fresh(usralloc) && usralloc.Valid()
    ensures k.Valid() && OthersSame(old(k.S()), k.S(), r)
    ensures outcome == NotLoaded ==>
      FreeFrames(k.S()) == {} || exists n: nat :: StuckAt([UserAreas.USER_RANGE], usralloc.Areas(), areas, nodes, n)
    ensures outcome == NoRoom ==>
      && Without([UserAreas.USER_RANGE], usralloc.Areas(), areas, |areas|)
      && forall a | a in usralloc.Areas() :: a.size <= argsSize
    ensures outcome == NotMapped ==> FreeFrames(k.S()) == {}
    ensures argsStorage != 0 <==> outcome != NotLoaded && outcome != NoRoom
    ensures argsStorage != 0 ==> Apart(areas, argsStorage, argsSize)
    ensures argsStorage != 0 ==> LeftFree(usralloc.Areas(), areas, argsStorage, argsSize)
    ensures outcome == AboveUserHalf <==> argsStorage != 0 && argsStorage + argsSize > USER_END
    ensures outcome == Loaded ==>
      Imaged(old(k.S()), k.S(), r, areas + [ArgumentArea(argsStorage, argsSize)], |areas| + 1)
    ensures outcome == Loaded ==> forall a | PageIn(a, argsStorage, argsStorage + argsSize) ::
      HasRights(k.S(), r, PathAt(a), Flags(true, true, false, false))
  {
    hide Inv, FreeFrames, StuckAt, HasRights, OthersSame, CoW.Ready, Imaged, NeverCow, Mappable, OffsetsAligned,
      LowUpTo, Without, Apart, LeftFree, UserAreas.UserVirtualAllocator.Valid, FreeList.Free, FreeList.Range,
      Segments;
    ghost var s0 := k.S();
    var done;
    usralloc, done := LoadFresh(areas, k, r, nodes, residues);
    if !done { return NotLoaded, usralloc, 0; }
    argsStorage := TakeRoom(areas, usralloc, argsSize);
    if argsStorage == 0 { return NoRoom, usralloc, 0; }
    if argsStorage + argsSize > USER_END { return AboveUserHalf, usralloc, argsStorage; }
    done := MapArguments(areas, k, r, argsStorage, argsSize, residues, s0);
    outcome := if done then Loaded else NotMapped;
  }

  /** `cleanup`, a new allocator, and the loading. */
  method LoadFresh(areas: seq<ElfMemoryArea>, k: CoW, r: nat, nodes: seq<bool>, residues: nat -> seq<bv8>)
    returns (usralloc: UserAreas.UserVirtualAllocator, done: bool)
    requires Mappable(areas) && |nodes| == |areas| && forall a :: |residues(a)| == PAGE_SIZE
    requires k.Valid() && r in k.roots
    modifies k.mem, k.phys, k.phys.bitmap, k.phys.refCount
    ensures fresh(usralloc) && fresh(usralloc.repr) && usralloc.Valid()
    ensures done ==> Without([UserAreas.USER_RANGE], usralloc.Areas(), areas, |areas|)
    ensures done ==> OffsetsAligned(usralloc.Areas()) && LowUpTo(areas, |areas|)
    ensures k.Valid() && OthersSame(old(k.S()), k.S(), r)
    ensures done ==> Imaged(old(k.S()), k.S(), r, areas, |areas|) && NeverCow(k.S(), r)
    ensures !done ==>
      FreeFrames(k.S()) == {} || exists n: nat :: StuckAt([UserAreas.USER_RANGE], usralloc.Areas(), areas, nodes, n)
  {
    hide Inv, FreeFrames, StuckAt, OthersSame, CoW.Ready, Imaged, NeverCow, Mappable, OffsetsAligned, LowUpTo,
      Without, AllSucceed, Loadable, OpenFrom, UserAreas.UserVirtualAllocator.Valid, ExitStep;
    ghost var s0 := k.S();
    k.DeallocateUserMemory(r);
    AfterExit(s0, k.S(), r, areas);
    usralloc := new UserAreas.UserVirtualAllocator();
    FreshIsAligned();
    ghost var mapped;
    done, mapped := Load(areas, usralloc, k, r, nodes, residues, s0);
  }

  /** Room for the arguments, 0 when there is none. */
  method TakeRoom(areas: seq<ElfMemoryArea>, usralloc: UserAreas.UserVirtualAllocator, size: nat) returns (start: nat)
    requires usralloc.Valid() && Without([UserAreas.USER_RANGE], usralloc.Areas(), areas, |areas|)
    requires OffsetsAligned(usralloc.Areas())
    modifies usralloc, usralloc.repr
    ensures usralloc.Valid()
    ensures start == 0 <==> forall a | a in old(usralloc.Areas()) :: a.size <= size
    ensures start == 0 ==> usralloc.Areas() == old(usralloc.Areas())
    ensures start != 0 ==> start % PAGE_SIZE == 0 && Apart(areas, start, size)
    ensures start != 0 ==> LeftFree(usralloc.Areas(), areas, start, size)
    ensures start != 0 ==> FreeList.Range(FreeList.Area(start, size)) !! Segments(areas, |areas|)
  {
    hide OffsetsAligned, Without, UserAreas.UserVirtualAllocator.Valid, Apart, LeftFree, UserAreas.StrictBestFit,
      FreeList.Free, FreeList.Range, Segments;
    ghost var before := usralloc.Areas();
    start := usralloc.Alloc(size);
    if start != 0 { RoomForArguments([UserAreas.USER_RANGE], before, usralloc.Areas(), areas, start, size); }
  }
}
