/**
 Mapping pages of the kernel half: for the heap, for stacks, and to look at one frame.
 The tables there are shared, so every address space gets the same translations.
 */
module KernelMap {
  import opened Basics
  import opened PageTables
  import opened AddressSpaces
  import opened Paging
  import opened KernelFrames
  import opened CowMap
  import opened CowKernel
  import opened VmMap

  /** A page of the kernel half, in any address space. */
  ghost predicate KernelPage(s: State, r: nat, p: seq<nat>) {
    r in s.roots && KernelPath(p) && |p| == LEVELS
  }

  /** Every page of the kernel half but q is mapped as before. */
  ghost predicate KernelKept(s: State, s': State, q: seq<nat>) {
    && s.used <= s'.used && s.reserved <= s'.reserved
    && forall r, p | KernelPage(s, r, p) && p != q :: Ent(s'.mem, r, p) == Ent(s.mem, r, p)
  }

  /** What mapping a page does to its entry: a page that is not there gets the given frame
      (0 stands for a free one), one that is there gets other flags. */
  ghost predicate KernelLeaf(s: State, s': State, e: Option<Entry>, e': Option<Entry>, f: Flags, frame: nat) {
    match e
    case None =>
      && NewLeaf(e', f)
      && (if frame != 0 then e'.value.frame == frame else e'.value.frame !in s.used && e'.value.frame in s'.reserved)
    case Some(was) => OldLeaf(was, e', f)
  }

  ghost predicate KernelPageMapped(s: State, s': State, q: seq<nat>, f: Flags, frame: nat)
    requires q != []
  {
    && KernelKept(s, s', q)
    && forall r | r in s.roots :: KernelLeaf(s, s', Ent(s.mem, r, q), Ent(s'.mem, r, q), f, frame)
  }

  lemma KernelTableIs(s: State, p: seq<nat>, t: nat)
    requires Inv(s) && IsKernelPath(s, p, t)
    ensures IsTable(s.mem, t) && t in s.used && t in s.reserved && |s.mem| == |s.refs| && p != []
  {
    var r :| KernelReaches(s, r, p, t);
  }

  lemma PutDone(s: State, s': State, c: KernelPut)
    requires Inv(s) && KernelPutStep(s, s', c)
    ensures KernelStep(s, s') && Inv(s') && KernelKept(s, s', c.Path()) && c in KernelPuts(s, s')
  {
    KernelPutIsStep(s, s', c);
    KernelKeepsInv(s, s');
    InvParts(s);
    assert c in KernelPuts(s, s');
    hide Inv, KernelPutStep, KernelPuts, KernelStep;
    forall r, p | KernelPage(s, r, p) && p != c.Path() ensures Ent(s'.mem, r, p) == Ent(s.mem, r, p) {
      KernelPutEntries(s, s', c, r, p);
    }
  }

  // ------------------------------------------------------------ the walk down

  /** The entry of the top-level table is always there. */
  method KernelTopEntry(k: CoW, r: nat, index: nat) returns (next: nat)
    requires k.Valid() && r in k.roots && USER_ENTRIES <= index < RECURSIVE_ENTRY
    modifies k.mem, k.phys, k.phys.bitmap, k.phys.refCount
    ensures k.Valid() && k.S() == old(k.S()) && IsKernelPath(k.S(), [index], next)
  {
    hide Inv;
    ghost var s := k.S();
    TopEntryIs(s, r, index);
    TopIsThere(s, r);
    var ok;
    ok, next := k.WalkToWithAlloc(r, index, false);
    SameTable(s, r, index);
  }

  lemma TopEntryIs(s: State, r: nat, index: nat)
    requires Inv(s) && r in s.roots && USER_ENTRIES <= index < RECURSIVE_ENTRY
    ensures IsTable(s.mem, r) && s.mem[r].es[index].present
    ensures IsKernelPath(s, [index], s.mem[r].es[index].frame)
  {
    assert KernelTop(s.mem, r);
    assert [] + [index] == [index];
    WalkSnoc(s.mem, r, [], index);
    assert KernelReaches(s, r, [index], s.mem[r].es[index].frame);
  }

  lemma SameTable(s: State, t: nat, i: nat)
    requires IsTable(s.mem, t) && i < ENTRIES
    ensures s.(mem := s.mem[t := Table(s.mem[t].es[i := Granted(s.mem[t].es[i], false)])]) == s
  {
    assert s.mem[t].es[i := s.mem[t].es[i]] == s.mem[t].es;
    assert s.mem[t := Table(s.mem[t].es)] == s.mem;
  }

  /** `walkToWithAlloc` in a table of the kernel half. No page moves. */
  method WalkInKernelHalf(k: CoW, t: nat, index: nat, ghost p: seq<nat>) returns (ok: bool, next: nat)
    requires k.Valid() && IsKernelPath(k.S(), p, t) && |p| + 1 < LEVELS && index < ENTRIES
    modifies k`reserved, k.mem, k.phys, k.phys.bitmap, k.phys.refCount
    ensures k.Valid() && KernelStep(old(k.S()), k.S()) && KernelKept(old(k.S()), k.S(), [])
    ensures ok ==> IsKernelPath(k.S(), p + [index], next)
    ensures ok <==> old(k.S().mem[t].es[index].present) || FreeFrames(old(k.S())) != {}
    ensures !ok ==> k.S() == old(k.S())
  {
    hide Inv, IsKernelPath, KernelStep, KernelKept, KernelPutStep, FreeFrames;
    ghost var s := k.S();
    KernelTableIs(s, p, t);
    NoKernelStep(s);
    NothingMoved(s);
    ok, next := k.WalkToWithAlloc(t, index, false);
    if !ok { return; }
    if s.mem[t].es[index].present {
      SameTable(s, t, index);
      NextKernelTable(s, p, t, index);
    } else {
      k.reserved := k.reserved + {next};
      TableAdded(s, k.S(), p, t, index, next);
    }
  }

  lemma NothingMoved(s: State)
    ensures KernelKept(s, s, [])
  {}

  lemma NextKernelTable(s: State, p: seq<nat>, t: nat, i: nat)
    requires IsKernelPath(s, p, t) && IsTable(s.mem, t) && |p| + 1 < LEVELS && i < ENTRIES && s.mem[t].es[i].present
    ensures IsKernelPath(s, p + [i], s.mem[t].es[i].frame)
  {
    var r :| KernelReaches(s, r, p, t);
    WalkSnoc(s.mem, r, p, i);
    assert KernelReaches(s, r, p + [i], s.mem[t].es[i].frame);
  }

  lemma TableAdded(s: State, s': State, p: seq<nat>, t: nat, i: nat, next: nat)
    requires Inv(s) && IsKernelPath(s, p, t) && IsTable(s.mem, t) && t in s.used && |p| + 1 < LEVELS && i < ENTRIES
    requires !s.mem[t].es[i].present && next !in s.used && next < |s.mem| == |s.refs|
    requires s' == WithTable(s, t, i, false, next).(reserved := s.reserved + {next})
    ensures KernelStep(s, s') && Inv(s') && KernelKept(s, s', []) && IsKernelPath(s', p + [i], next)
  {
    var c := KernelPut(p, i, t, TableEntry(next, false), true);
    assert KernelPutStep(s, s', c);
    PutDone(s, s', c);
    hide Inv, KernelPutStep, KernelPuts, KernelStep, WithTable, IsKernelPath, KernelKept;
    TableIsReached(s, s', c);
    TableMovesNothing(s, s', c);
  }

  lemma TableIsReached(s: State, s': State, c: KernelPut)
    requires c in KernelPuts(s, s') && |c.Path()| < LEVELS && c.e.present
    ensures IsKernelPath(s', c.Path(), c.e.frame)
  {
    hide KernelPuts;
    var r := SomeRoot(s, s', c);
    KernelPutEntries(s, s', c, r, c.Path());
    assert KernelReaches(s', r, c.Path(), c.e.frame);
  }

  lemma SomeRoot(s: State, s': State, c: KernelPut) returns (r: nat)
    requires c in KernelPuts(s, s')
    ensures r in s.roots && r in s'.roots && KernelPath(c.Path())
  {
    r :| KernelReaches(s, r, c.p, c.table);
  }

  lemma TableMovesNothing(s: State, s': State, c: KernelPut)
    requires KernelKept(s, s', c.Path()) && |c.Path()| < LEVELS
    ensures KernelKept(s, s', [])
  {}

  // ------------------------------------------------------------------ the page

  method PutKernelLeaf(k: CoW, t: nat, index: nat, f: Flags, frame: nat, ghost p: seq<nat>) returns (ok: bool)
    requires k.Valid() && IsKernelPath(k.S(), p, t) && |p| + 1 == LEVELS && index < ENTRIES
    requires frame == 0 || !f.managed
    modifies k`reserved, k.mem, k.phys, k.phys.bitmap, k.phys.refCount
    ensures k.Valid() && KernelStep(old(k.S()), k.S())
    ensures ok <==> old(k.S().mem[t].es[index].present) || frame != 0 || FreeFrames(old(k.S())) != {}
    ensures !ok ==> k.S() == old(k.S())
    ensures ok ==> KernelPageMapped(old(k.S()), k.S(), p + [index], f, frame)
  {
    hide Inv, IsKernelPath, KernelStep, KernelPageMapped, FreeFrames;
    ghost var s := k.S();
    KernelTableIs(s, p, t);
    NoKernelStep(s);
    var e := k.mem[t].es[index];
    if !e.present {
      var target := frame;
      if frame == 0 {
        target := k.NewFrame();
        if target == 0 { return false; }
        k.reserved := k.reserved + {target};
      }
      k.SetEntry(t, index, Leaf(target, f));
      LeafAdded(s, k.S(), p, t, index, f, frame, target);
    } else {
      k.SetEntry(t, index, Leaf(e.frame, f.(managed := e.managed)));
      LeafChanged(s, k.S(), p, t, index, f, frame);
    }
    ok := true;
  }

  lemma LeafAdded(s: State, s': State, p: seq<nat>, t: nat, i: nat, f: Flags, frame: nat, target: nat)
    requires Inv(s) && IsKernelPath(s, p, t) && IsTable(s.mem, t) && t in s.used && |p| + 1 == LEVELS && i < ENTRIES
    requires !s.mem[t].es[i].present && |s.mem| == |s.refs|
    requires if frame != 0 then target == frame else target !in s.used && target < |s.mem|
    requires s' == if frame != 0 then s.(mem := s.mem[t := Table(s.mem[t].es[i := Leaf(target, f)])])
      else s.(mem := s.mem[t := Table(s.mem[t].es[i := Leaf(target, f)])], refs := s.refs[target := 1],
              used := s.used + {target}, reserved := s.reserved + {target})
    ensures KernelStep(s, s') && Inv(s') && KernelPageMapped(s, s', p + [i], f, frame)
  {
    var c := KernelPut(p, i, t, Leaf(target, f), frame == 0);
    assert KernelPutStep(s, s', c);
    PutDone(s, s', c);
    PageIsPut(s, s', c, f, frame);
  }

  lemma LeafChanged(s: State, s': State, p: seq<nat>, t: nat, i: nat, f: Flags, frame: nat)
    requires Inv(s) && IsKernelPath(s, p, t) && IsTable(s.mem, t) && t in s.used && |p| + 1 == LEVELS && i < ENTRIES
    requires s.mem[t].es[i].present && |s.mem| == |s.refs|
    requires var e := s.mem[t].es[i];
      s' == s.(mem := s.mem[t := Table(s.mem[t].es[i := Leaf(e.frame, f.(managed := e.managed))])])
    ensures KernelStep(s, s') && Inv(s') && KernelPageMapped(s, s', p + [i], f, frame)
  {
    var e := s.mem[t].es[i];
    var c := KernelPut(p, i, t, Leaf(e.frame, f.(managed := e.managed)), false);
    assert KernelPutStep(s, s', c);
    PutDone(s, s', c);
    PageIsPut(s, s', c, f, frame);
  }

  lemma PageIsPut(s: State, s': State, c: KernelPut, f: Flags, frame: nat)
    requires c in KernelPuts(s, s') && KernelPutStep(s, s', c) && KernelKept(s, s', c.Path()) && |c.Path()| == LEVELS
    requires var e := s.mem[c.table].es[c.i];
      if !e.present then
        c.e == Leaf(c.e.frame, f) && c.taken == (frame == 0) && (frame != 0 ==> c.e.frame == frame)
      else c.e == Leaf(e.frame, f.(managed := e.managed))
    ensures KernelPageMapped(s, s', c.Path(), f, frame)
  {
    forall r | r in s.roots
      ensures KernelLeaf(s, s', Ent(s.mem, r, c.Path()), Ent(s'.mem, r, c.Path()), f, frame)
    {
      PutIsReached(s, s', c, r);
      WalkSnoc(s.mem, r, c.p, c.i);
      KernelPutEntries(s, s', c, r, c.Path());
    }
  }

  /** `mapNewPageAt` for a page of the kernel half. `frame` is the physical page to map, or
      0 for a new one. Every address space gets the page, and no other page moves. */
  method MapKernelPageAt(k: CoW, r: nat, addr: nat, f: Flags, frame: nat) returns (ok: bool)
    requires k.Valid() && r in k.roots && KERNEL_START <= addr < KERNEL_END && (frame == 0 || !f.managed)
    modifies k`reserved, k.mem, k.phys, k.phys.bitmap, k.phys.refCount
    ensures k.Valid() && KernelStep(old(k.S()), k.S())
    ensures ok ==> KernelPageMapped(old(k.S()), k.S(), PathAt(addr), f, frame)
    ensures !ok ==> FreeFrames(k.S()) == {}
  {
    hide Inv, IsKernelPath, KernelStep, KernelPageMapped, KernelKept, PathAt, FreeFrames;
    ghost var s0 := k.S();
    KernelDigits(addr);
    NoKernelStep(s0);
    NothingMoved(s0);
    var q := PathAt(addr);
    var p3 := KernelTopEntry(k, r, q[0]);
    var p2, p1;
    ok, p2 := WalkInKernelHalf(k, p3, q[1], [q[0]]);
    if !ok { return; }
    assert [q[0]] + [q[1]] == [q[0], q[1]];
    ghost var s1 := k.S();
    ok, p1 := WalkInKernelHalf(k, p2, q[2], [q[0], q[1]]);
    KernelSteps(s0, s1, k.S());
    if !ok { return; }
    assert [q[0], q[1]] + [q[2]] == [q[0], q[1], q[2]];
    ghost var s2 := k.S();
    KeptOn(s0, s1, s2);
    ok := PutKernelLeaf(k, p1, q[3], f, frame, [q[0], q[1], q[2]]);
    KernelSteps(s0, s2, k.S());
    assert [q[0], q[1], q[2]] + [q[3]] == q;
    if ok { MappedSince(s0, s2, k.S(), q, f, frame); }
  }

  lemma KeptOn(s: State, s1: State, s2: State)
    requires KernelStep(s, s1) && KernelKept(s, s1, []) && KernelKept(s1, s2, [])
    ensures KernelKept(s, s2, [])
  {
    assert s1.roots == s.roots;
  }

  lemma MappedSince(s: State, s1: State, s2: State, q: seq<nat>, f: Flags, frame: nat)
    requires KernelStep(s, s1) && KernelKept(s, s1, []) && KernelPath(q) && |q| == LEVELS
    requires KernelPageMapped(s1, s2, q, f, frame)
    ensures KernelPageMapped(s, s2, q, f, frame)
  {
    forall r | r in s.roots ensures KernelLeaf(s, s2, Ent(s.mem, r, q), Ent(s2.mem, r, q), f, frame) {
      assert KernelPage(s, r, q);
    }
  }

  // ----------------------------------------------------------------- a range

  /** The frame for page n of a mapping: one after the other from `base`, or new ones. */
  function FrameFor(base: nat, n: nat): nat {
    if base == 0 then 0 else base + n
  }

  ghost predicate KernelPageDone(s0: State, s: State, r: nat, a: nat, start: nat, f: Flags, base: nat)
    requires start <= a
  {
    var q := PathAt(a);
    KernelLeaf(s0, s, Ent(s0.mem, r, q), Ent(s.mem, r, q), f,
               if base == 0 then 0 else base + (a - start) / PAGE_SIZE)
  }

  /** In every address space the pages of the range are mapped, and no other page of the
      kernel half moved. */
  ghost predicate KernelRangeMapped(s0: State, s: State, start: nat, end: nat, f: Flags, base: nat) {
    && s.roots == s0.roots && s0.used <= s.used && s0.reserved <= s.reserved
    && (forall r, a | r in s0.roots && PageIn(a, start, end) :: KernelPageDone(s0, s, r, a, start, f, base))
    && (forall r, p | KernelPage(s0, r, p) && !RangePath(p, start, end) :: Ent(s.mem, r, p) == Ent(s0.mem, r, p))
  }

  /** New pages are on frames of their own. */
  ghost predicate OwnFrames(s0: State, s: State, start: nat, end: nat) {
    forall r, a, b | r in s0.roots && PageIn(a, start, end) && PageIn(b, start, end) && a != b
      && Ent(s0.mem, r, PathAt(a)).None? && Ent(s0.mem, r, PathAt(b)).None? ::
      Ent(s.mem, r, PathAt(a)).Some? && Ent(s.mem, r, PathAt(b)).Some?
      && Ent(s.mem, r, PathAt(a)).value.frame != Ent(s.mem, r, PathAt(b)).value.frame
  }

  predicate KernelRange(start: nat, end: nat) {
    KERNEL_START <= start <= end <= KERNEL_END && start % PAGE_SIZE == 0 && end % PAGE_SIZE == 0
  }

  lemma KernelNext(a: nat, start: nat, addr: nat, end: nat)
    requires KernelRange(start, end) && start <= addr < end && addr % PAGE_SIZE == 0
    ensures PageIn(a, start, addr + PAGE_SIZE) <==> PageIn(a, start, addr) || a == addr
    ensures addr + PAGE_SIZE <= end && (addr + PAGE_SIZE) % PAGE_SIZE == 0
    ensures PageIn(a, start, end) ==> KERNEL_START <= a < KERNEL_END && a % PAGE_SIZE == 0
    ensures PageIn(a, start, addr) ==> PageIn(a, start, end)
  {}

  lemma KernelOutside(p: seq<nat>, start: nat, addr: nat, end: nat)
    requires KernelRange(start, end) && start <= addr < end && addr % PAGE_SIZE == 0
    ensures !RangePath(p, start, addr + PAGE_SIZE) ==> !RangePath(p, start, addr) && p != PathAt(addr)
    ensures !RangePath(PathAt(addr), start, addr)
  {
    hide PathAt, PageIn;
    KernelNext(addr, start, addr, end);
    if a :| PageIn(a, start, addr) && PathAt(a) == p { KernelNext(a, start, addr, end); }
    if a :| PageIn(a, start, addr) && PathAt(a) == PathAt(addr) {
      KernelNext(a, start, addr, end);
      KernelPathInjective(a, addr);
      NotIn(addr, start);
    }
  }

  lemma NotIn(addr: nat, start: nat)
    ensures !PageIn(addr, start, addr)
  {}

  /** The page mapped last. */
  lemma LastPage(s0: State, s: State, s': State, r: nat, start: nat, addr: nat, end: nat, f: Flags, base: nat)
    requires KernelRange(start, end) && start <= addr < end && addr % PAGE_SIZE == 0 && r in s0.roots
    requires KernelRangeMapped(s0, s, start, addr, f, base)
    requires KernelPageMapped(s, s', PathAt(addr), f, FrameFor(base, (addr - start) / PAGE_SIZE))
    ensures KernelPageDone(s0, s', r, addr, start, f, base)
    ensures Ent(s.mem, r, PathAt(addr)) == Ent(s0.mem, r, PathAt(addr))
  {
    KernelOutside(PathAt(addr), start, addr, end);
    KernelDigits(addr);
    assert KernelPage(s0, r, PathAt(addr));
  }

  /** A page mapped before. */
  lemma EarlierPage(s0: State, s: State, s': State, r: nat, a: nat, start: nat, addr: nat, end: nat, f: Flags,
      base: nat)
    requires KernelRange(start, end) && start <= addr < end && addr % PAGE_SIZE == 0 && PageIn(a, start, addr)
    requires KernelRangeMapped(s0, s, start, addr, f, base) && r in s0.roots && KernelKept(s, s', PathAt(addr))
    ensures KernelPageDone(s0, s', r, a, start, f, base) && Ent(s'.mem, r, PathAt(a)) == Ent(s.mem, r, PathAt(a))
  {
    hide PathAt;
    KernelNext(a, start, addr, end);
    KernelDigits(a);
    if PathAt(a) == PathAt(addr) { KernelPathInjective(a, addr); }
    assert KernelPage(s, r, PathAt(a));
    assert KernelPageDone(s0, s, r, a, start, f, base);
  }

  lemma KernelRangeExtends(s0: State, s: State, s': State, start: nat, addr: nat, end: nat, f: Flags, base: nat)
    requires KernelRange(start, end) && start <= addr < end && addr % PAGE_SIZE == 0 && s'.roots == s.roots
    requires KernelRangeMapped(s0, s, start, addr, f, base)
    requires KernelPageMapped(s, s', PathAt(addr), f, FrameFor(base, (addr - start) / PAGE_SIZE))
    ensures KernelRangeMapped(s0, s', start, addr + PAGE_SIZE, f, base)
  {
    hide PathAt, RangePath, KernelPageDone;
    forall r, a | r in s0.roots && PageIn(a, start, addr + PAGE_SIZE)
      ensures KernelPageDone(s0, s', r, a, start, f, base)
    {
      KernelNext(a, start, addr, end);
      if a == addr {
        LastPage(s0, s, s', r, start, addr, end, f, base);
      } else {
        EarlierPage(s0, s, s', r, a, start, addr, end, f, base);
      }
    }
    forall r, p | KernelPage(s0, r, p) && !RangePath(p, start, addr + PAGE_SIZE)
      ensures Ent(s'.mem, r, p) == Ent(s0.mem, r, p)
    {
      KernelOutside(p, start, addr, end);
      assert KernelPage(s, r, p);
    }
  }

  /** A page that was not there, mapped to a frame of the kernel's. */
  lemma OnReserved(s0: State, s: State, r: nat, a: nat, start: nat, f: Flags)
    requires start <= a && KernelPageDone(s0, s, r, a, start, f, 0) && Ent(s0.mem, r, PathAt(a)).None?
    ensures Ent(s.mem, r, PathAt(a)).Some? && Ent(s.mem, r, PathAt(a)).value.frame in s.reserved
  {}

  lemma LastIsNew(s: State, s': State, r: nat, addr: nat, f: Flags)
    requires KernelPageMapped(s, s', PathAt(addr), f, 0) && r in s.roots && Ent(s.mem, r, PathAt(addr)).None?
    ensures Ent(s'.mem, r, PathAt(addr)).Some? && Ent(s'.mem, r, PathAt(addr)).value.frame !in s.used
  {}

  lemma OwnFramesExtend(s0: State, s: State, s': State, start: nat, addr: nat, end: nat, f: Flags)
    requires KernelRange(start, end) && start <= addr < end && addr % PAGE_SIZE == 0 && s.reserved <= s.used
    requires KernelRangeMapped(s0, s, start, addr, f, 0) && OwnFrames(s0, s, start, addr)
    requires KernelPageMapped(s, s', PathAt(addr), f, 0)
    ensures OwnFrames(s0, s', start, addr + PAGE_SIZE)
  {
    hide PathAt, PageIn, RangePath, KernelPageDone, KernelLeaf;
    forall r, a, b | r in s0.roots && PageIn(a, start, addr + PAGE_SIZE) && PageIn(b, start, addr + PAGE_SIZE) && a != b
      && Ent(s0.mem, r, PathAt(a)).None? && Ent(s0.mem, r, PathAt(b)).None?
      ensures Ent(s'.mem, r, PathAt(a)).Some? && Ent(s'.mem, r, PathAt(b)).Some?
      ensures Ent(s'.mem, r, PathAt(a)).value.frame != Ent(s'.mem, r, PathAt(b)).value.frame
    {
      KernelNext(a, start, addr, end);
      KernelNext(b, start, addr, end);
      LastPage(s0, s, s', r, start, addr, end, f, 0);
      if a == addr || b == addr { LastIsNew(s, s', r, addr, f); }
      if a != addr { Earlier(s0, s, s', r, a, start, addr, end, f); }
      if b != addr { Earlier(s0, s, s', r, b, start, addr, end, f); }
    }
  }

  lemma Earlier(s0: State, s: State, s': State, r: nat, a: nat, start: nat, addr: nat, end: nat, f: Flags)
    requires KernelRange(start, end) && start <= addr < end && addr % PAGE_SIZE == 0 && PageIn(a, start, addr)
    requires KernelRangeMapped(s0, s, start, addr, f, 0) && r in s0.roots && KernelKept(s, s', PathAt(addr))
    requires Ent(s0.mem, r, PathAt(a)).None?
    ensures Ent(s'.mem, r, PathAt(a)).Some? && Ent(s'.mem, r, PathAt(a)) == Ent(s.mem, r, PathAt(a))
    ensures Ent(s.mem, r, PathAt(a)).value.frame in s.reserved
  {
    hide PathAt, KernelPageDone;
    EarlierPage(s0, s, s', r, a, start, addr, end, f, 0);
    assert KernelPageDone(s0, s, r, a, start, f, 0);
    OnReserved(s0, s, r, a, start, f);
  }

  lemma EmptyKernelRange(s: State, start: nat, f: Flags, base: nat)
    ensures KernelRangeMapped(s, s, start, start, f, base) && OwnFrames(s, s, start, start)
  {
    forall a ensures !PageIn(a, start, start) {}
  }

  /** `mapPages` and `mapNewPages` in the kernel half, from physical page `base` on or with
      new pages. On failure the pages mapped so far are left. */
  method MapKernelPages(k: CoW, r: nat, start: nat, end: nat, f: Flags, base: nat) returns (ok: bool)
    requires k.Valid() && r in k.roots && KernelRange(start, end) && (base == 0 || !f.managed)
    modifies k`reserved, k.mem, k.phys, k.phys.bitmap, k.phys.refCount
    ensures k.Valid() && KernelStep(old(k.S()), k.S())
    ensures ok ==> KernelRangeMapped(old(k.S()), k.S(), start, end, f, base)
    ensures !ok ==> FreeFrames(k.S()) == {}
    ensures ok && base == 0 ==> OwnFrames(old(k.S()), k.S(), start, end)
  {
    hide Inv, KernelStep, KernelRangeMapped, OwnFrames, KernelPageMapped, PathAt, FreeFrames;
    ghost var s0 := k.S();
    NoKernelStep(s0);
    EmptyKernelRange(s0, start, f, base);
    var addr := start;
    while addr < end
      invariant start <= addr <= end && addr % PAGE_SIZE == 0
      invariant k.Valid() && r in k.roots && KernelStep(s0, k.S())
      invariant KernelRangeMapped(s0, k.S(), start, addr, f, base)
      invariant base == 0 ==> OwnFrames(s0, k.S(), start, addr)
      decreases end - addr
    {
      ghost var s := k.S();
      KernelNext(addr, start, addr, end);
      ok := MapKernelPageAt(k, r, addr, f, FrameFor(base, (addr - start) / PAGE_SIZE));
      KernelSteps(s0, s, k.S());
      if !ok { return; }
      KernelRangeExtends(s0, s, k.S(), start, addr, end, f, base);
      if base == 0 {
        ReservedIsUsed(s);
        OwnFramesExtend(s0, s, k.S(), start, addr, end, f);
      }
      addr := addr + PAGE_SIZE;
    }
    ok := true;
  }

  lemma ReservedIsUsed(s: State)
    requires Inv(s)
    ensures s.reserved <= s.used
  {}

  // ------------------------------------------ user mappings in the upper half

  /** The first step of a mapping for users, at any index of the top-level table. */
  ghost predicate UserTopStep(s: State, s': State, r: nat, i: nat) {
    && IsTable(s.mem, r) && i < ENTRIES
    && if s.mem[r].es[i].present
       then s' == s.(mem := s.mem[r := Table(s.mem[r].es[i := Granted(s.mem[r].es[i], true)])])
       else exists t: nat :: t !in s.used && t < |s.mem| == |s.refs| && s' == WithTable(s, r, i, true, t)
  }

  /** It leaves the kernel half closed to users exactly if the index is in the lower half. */
  lemma UserTopStepIff(s: State, s': State, r: nat, i: nat)
    requires Inv(s) && r in s.roots && UserTopStep(s, s', r, i)
    ensures KernelHalf(s') <==> i < USER_ENTRIES
  {
    if i < USER_ENTRIES {
      LowerTopStep(s, s', r, i);
    } else {
      UpperTopStep(s, s', r, i);
      assert !KernelTop(s'.mem, r);
    }
  }

  lemma UpperTopStep(s: State, s': State, r: nat, i: nat)
    requires Inv(s) && r in s.roots && UserTopStep(s, s', r, i) && i >= USER_ENTRIES
    ensures s'.roots == s.roots && IsTable(s'.mem, r) && s'.mem[r].es[i].user
  {
    assert KernelTop(s.mem, r);
  }

  lemma LowerTopStep(s: State, s': State, r: nat, i: nat)
    requires Inv(s) && r in s.roots && UserTopStep(s, s', r, i) && i < USER_ENTRIES
    ensures KernelHalf(s')
  {
    forall r' | r' in s.roots ensures KeepsUpper(s, s', r') {}
    FramesInRange(s);
    InvParts(s);
    hide Inv, KernelHalf, KeepsUpper;
    RootsKept(s, s');
  }

  /** The first step of `mapNewPageAt` with the user flag, for any address of the range that
      the user allocator hands out. Nothing keeps it from the upper half, and there it opens
      the kernel half to users. */
  method UserTopEntry(k: CoW, r: nat, addr: nat) returns (ok: bool, next: nat)
    requires k.Valid() && r in k.roots && addr < 2 * USER_END
    modifies k.mem, k.phys, k.phys.bitmap, k.phys.refCount
    ensures ok ==> k.Ready() && UserTopStep(old(k.S()), k.S(), r, PathAt(addr)[0])
    ensures ok ==> (KernelHalf(k.S()) <==> addr < USER_END)
    ensures !ok ==> addr < USER_END && k.Valid() && k.S() == old(k.S())
  {
    hide Inv, KernelHalf;
    ghost var s := k.S();
    TopIsThere(s, r);
    HalfOf(addr);
    ok, next := k.WalkToWithAlloc(r, PathAt(addr)[0], true);
    if ok {
      UserTopStepIff(s, k.S(), r, PathAt(addr)[0]);
    } else {
      TopIsPresent(s, r, PathAt(addr)[0]);
    }
  }

  lemma HalfOf(addr: nat)
    requires addr < 2 * USER_END
    ensures PathAt(addr)[0] < ENTRIES && (PathAt(addr)[0] < USER_ENTRIES <==> addr < USER_END)
  {}

  lemma TopIsPresent(s: State, r: nat, i: nat)
    requires Inv(s) && r in s.roots
    ensures USER_ENTRIES <= i < ENTRIES ==> s.mem[r].es[i].present
  {
    assert KernelTop(s.mem, r);
  }
}
