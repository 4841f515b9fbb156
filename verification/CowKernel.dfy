/**
 The copy-on-write code itself: the passes over the tables, fork, the page-fault
 handler and exit, working in place on physical memory.
 */
module CowKernel {
  import opened Basics
  import opened PageTables
  import opened AddressSpaces
  import opened Traversal
  import opened CowFork
  import opened CowExit
  import opened CowFault
  import opened FaultPass
  import opened Paging
  import opened CowRuns
  import opened CowMap
  import opened KernelFrames
  import opened MarkPass
  import opened PhysMemory
  import opened Words

  datatype Outcome = Resolved | Violation | OutOfMemory | Panic

  /** The entry `walkToWithAlloc` makes for a new table. */
  function TableEntry(frame: nat, user: bool): Entry {
    Entry(frame, true, true, user, true, false, false, false)
  }

  lemma TableWord(addr: bv64, user: bool)
    requires addr & FLAGS_MASK == 0
    ensures Decode(RawTable(addr, user)) == TableEntry((addr >> 12) as nat, user)
  {
    hide RawTable, Decode;
    NewTableWord(addr, user);
  }

  /** What it does to an entry that is there. */
  function Granted(e: Entry, user: bool): Entry {
    if user then e.(user := true) else e
  }

  function WithTable(s: State, t: nat, index: nat, user: bool, next: nat): State
    requires IsTable(s.mem, t) && index < ENTRIES && next < |s.mem| == |s.refs|
  {
    s.(mem := s.mem[t := Table(s.mem[t].es[index := TableEntry(next, user)])][next := EmptyTable()],
       refs := s.refs[next := 1], used := s.used + {next})
  }

  lemma Taken(s: State, s': State, f: nat)
    requires f !in s.used && f < |s.mem| == |s.refs|
    requires s' == s.(refs := s.refs[f := 1], used := s.used + {f}, reserved := s.reserved + {f})
    ensures TakeStep(s, s', f)
  {
    assert s.mem == s.mem[f := s.mem[f]];
  }

  lemma Given(s: State, s': State, f: nat)
    requires f in s.reserved && f < |s.refs| && s.refs[f] == 1
    requires s' == s.(refs := s.refs[f := Dec64(1)], used := s.used - {f}, reserved := s.reserved - {f})
    ensures GiveStep(s, s', f)
  {}

  lemma ReservedFrame(s: State, f: nat)
    requires Inv(s) && f in s.reserved
    ensures f in s.used && f < |s.mem| == |s.refs|
  {}

  class CoW {
    const phys: PhysAllocator
    const mem: array<Frame>
    ghost var reserved: set<nat>
    ghost var roots: set<nat>

    /** Takes over physical memory as start-up leaves it: one address space that maps
        nothing. */
    constructor (phys: PhysAllocator, mem: array<Frame>, ghost root: nat, ghost reserved: set<nat>)
      requires phys.Valid() && mem.Length == phys.pagesCount
      requires mem as object != phys.bitmap && mem as object != phys.refCount
      requires Boot(State(mem[..], phys.Refs(), phys.Used(), {root}, reserved), root)
      ensures this.phys == phys && this.mem == mem
      ensures Valid() && S() == State(mem[..], phys.Refs(), phys.Used(), {root}, reserved) && AllViews(S()) == imap[]
    {
      this.phys, this.mem, this.roots, this.reserved := phys, mem, {root}, reserved;
      new;
      BootSatisfiesInv(S(), root);
    }

    ghost predicate Ready()
      reads this, mem, phys, phys.bitmap, phys.refCount
    {
      && phys.Valid() && mem.Length == phys.pagesCount
      && mem as object != phys.bitmap && mem as object != phys.refCount
    }

    ghost function S(): State
      requires Ready()
      reads this, mem, phys, phys.bitmap, phys.refCount
    {
      State(mem[..], phys.Refs(), phys.Used(), roots, reserved)
    }

    ghost predicate Valid()
      reads this, mem, phys, phys.bitmap, phys.refCount
    {
      Ready() && Inv(S())
    }

    // ------------------------------------------------ frames, by their number

    method NewFrame() returns (f: nat)
      requires Ready()
      modifies phys, phys.bitmap, phys.refCount
      ensures Ready()
      ensures f == 0 <==> FreeFrames(old(S())) == {}
      ensures f == 0 ==> S() == old(S())
      ensures f != 0 ==> f < mem.Length && f !in old(S().used) &&
                         S() == old(S()).(refs := old(S().refs)[f := 1], used := old(S().used) + {f})
    {
      var addr := phys.NewPage();
      f := addr / PAGE_SIZE;
      assert f != 0 ==> f in FreeFrames(old(S()));
    }

    method ReleaseFrame(f: nat)
      requires Ready() && 0 < f < mem.Length
      modifies phys, phys.bitmap, phys.refCount
      ensures Ready()
      ensures S() == old(S()).(refs := old(S().refs)[f := Dec64(old(S().refs)[f])],
                               used := if old(S().refs)[f] == 1 then old(S().used) - {f} else old(S().used))
    {
      phys.FreePage(f * PAGE_SIZE);
    }

    method RetainFrame(f: nat)
      requires Ready() && f < mem.Length
      modifies phys.refCount
      ensures Ready()
      ensures S() == old(S()).(refs := old(S().refs)[f := Inc64(old(S().refs)[f])])
    {
      phys.IncrementRefCount(f * PAGE_SIZE);
    }

    method SetEntry(t: nat, i: nat, e: Entry)
      requires Ready() && IsTable(mem[..], t) && i < ENTRIES
      modifies mem
      ensures Ready()
      ensures S() == old(S()).(mem := old(S().mem)[t := Table(old(S().mem)[t].es[i := e])])
    {
      mem[t] := Table(mem[t].es[i := e]);
    }

    /** `walkToWithAlloc`, in any table: a fresh table under an entry that is not there. */
    method WalkToWithAlloc(t: nat, index: nat, user: bool) returns (ok: bool, next: nat)
      requires Ready() && IsTable(S().mem, t) && t in S().used && index < ENTRIES
      modifies mem, phys, phys.bitmap, phys.refCount
      ensures Ready()
      ensures old(S().mem[t].es[index].present) ==> next == old(S().mem[t].es[index].frame)
      ensures old(S().mem[t].es[index].present) ==>
        var es := old(S().mem)[t].es;
        S() == old(S()).(mem := old(S().mem)[t := Table(es[index := Granted(es[index], user)])])
      ensures ok <==> old(S().mem[t].es[index].present) || FreeFrames(old(S())) != {}
      ensures !ok ==> S() == old(S())
      ensures ok && !old(S().mem[t].es[index].present) ==>
        next != 0 && next !in old(S().used) && next < mem.Length && S() == WithTable(old(S()), t, index, user, next)
    {
      if !mem[t].es[index].present {
        next := NewFrame();
        if next == 0 { return false, 0; }
        SetEntry(t, index, TableEntry(next, user));
        mem[next] := EmptyTable();
      } else {
        next := mem[t].es[index].frame;
        ghost var s := S();
        if user {
          SetEntry(t, index, mem[t].es[index].(user := true));
        } else {
          assert mem[t].es == mem[t].es[index := mem[t].es[index]];
          assert S().mem == S().mem[t := Table(mem[t].es)];
        }
      }
      ok := true;
    }

    // ---------------------------------------------- frames of the kernel's own

    /** The kernel takes a frame, for its heap, a stack or a table. */
    method TakeFrame() returns (f: nat)
      requires Valid()
      modifies this`reserved, phys, phys.bitmap, phys.refCount
      ensures Valid() && KernelStep(old(S()), S())
      ensures f == 0 <==> FreeFrames(old(S())) == {}
      ensures f == 0 ==> S() == old(S())
      ensures f != 0 ==> TakeStep(old(S()), S(), f)
    {
      hide Inv, KernelStep, TakeStep;
      ghost var s := S();
      NoKernelStep(s);
      f := NewFrame();
      if f == 0 { return; }
      reserved := reserved + {f};
      Taken(s, S(), f);
      TakeIsKernelStep(s, S(), f);
      KernelKeepsInv(s, S());
    }

    /** The kernel gives a frame back that nothing else refers to and that is none of the
        tables of its half. */
    method GiveFrame(f: nat)
      requires Valid() && f in reserved && f != 0 && !IsKernelTable(S(), f) && S().refs[f] == 1
      modifies this`reserved, phys, phys.bitmap, phys.refCount
      ensures Valid() && KernelStep(old(S()), S()) && GiveStep(old(S()), S(), f)
    {
      hide Inv, KernelStep, GiveStep, IsKernelTable;
      ghost var s := S();
      ReservedFrame(s, f);
      ReleaseFrame(f);
      reserved := reserved - {f};
      Given(s, S(), f);
      GiveIsKernelStepIff(s, S(), f);
      KernelKeepsInv(s, S());
    }

    // -------------------------------------------------------------- marking

    /** What the marking pass needs of the frames it is going to meet. */
    ghost predicate Markable(level: nat, t: nat, n: nat)
      requires Ready()
      reads this, mem, phys, phys.bitmap, phys.refCount
    {
      && Tree(S().mem, level, t, n) && (level > 0 ==> IsTable(S().mem, t))
      && forall f :: f in Met(S().mem, level, t, n) ==> f < mem.Length && S().refs[f] + 1 < WORD_LIMIT
    }

    /** The flag change of one present entry. */
    method MarkInPlace(t: nat, i: nat)
      requires Ready() && IsTable(S().mem, t) && i < ENTRIES
      modifies mem
      ensures Ready()
      ensures S() == old(S()).(mem := old(S().mem)[t := Table(old(S().mem)[t].es[i := old(S().mem)[t].es[i].Mark()])])
    {
      var e := mem[t].es[i];
      if !e.cow {
        SetEntry(t, i, e.(wasWritable := e.writable, writable := false, cow := true));
      } else {
        assert mem[t].es == mem[t].es[i := e];
        assert S().mem == S().mem[t := Table(mem[t].es[i := e])];
      }
    }

    /** One entry of either marking loop: mark it, count its frame, go below. */
    method MarkEntry(level: nat, t: nat, n: nat, i: nat, ghost m0: seq<Frame>, ghost r0: seq<nat>)
      requires Ready() && 0 < level && i < n <= ENTRIES && |m0| == |r0| == mem.Length
      requires Tree(m0, level, t, n) && MarkedBelow(m0, S().mem, level, t, i)
        && Bumped(r0, S().refs, Met(m0, level, t, i))
      requires forall f :: f in Met(m0, level, t, n) ==> f < mem.Length && r0[f] + 1 < WORD_LIMIT
      modifies mem, phys.refCount
      ensures Ready() && S().used == old(S().used)
      ensures MarkedBelow(m0, S().mem, level, t, i + 1) && Bumped(r0, S().refs, Met(m0, level, t, i + 1))
      decreases level, 0
    {
      hide Tree, Met, Bumped, MarkedBelow;
      ghost var m1, r1 := S().mem, S().refs;
      NextEntry(m0, m1, level, t, i);
      if mem[t].es[i].present {
        var e := mem[t].es[i];
        MarkInPlace(t, i);
        ghost var m2 := S().mem;
        ChildIsReady(m0, m1, m2, level, t, n, i);
        CountsBelowLimit(m0, level, t, n, i, r0, r1);
        RetainFrame(e.frame);
        ghost var r2 := S().refs;
        MarkAsCoWRec(level - 1, e.frame);
        MarkAdvances(m0, m1, m2, S().mem, level, t, n, i);
        BumpAdvances(m0, level, t, n, i, r0, r1, r2, S().refs);
      } else {
        MarkSkips(m0, m1, level, t, i);
        BumpSkips(m0, level, t, i);
      }
    }

    /** `markAsCoWRec`: marks every present entry from t down and adds one
        reference to every frame met. */
    method MarkAsCoWRec(level: nat, t: nat)
      requires Ready() && Markable(level, t, ENTRIES)
      modifies mem, phys.refCount
      ensures Ready() && S().used == old(S().used)
      ensures if level == 0 then S().mem == old(S().mem) else MarkedBelow(old(S().mem), S().mem, level, t, ENTRIES)
      ensures Bumped(old(S().refs), S().refs, Met(old(S().mem), level, t, ENTRIES))
      decreases level, 1
    {
      if level == 0 { return; }
      ghost var m0, r0 := S().mem, S().refs;
      NothingMarked(m0, level, t);
      var i := 0;
      while i < ENTRIES
        invariant i <= ENTRIES
        invariant Ready() && S().used == old(S().used)
        invariant MarkedBelow(m0, S().mem, level, t, i) && Bumped(r0, S().refs, Met(m0, level, t, i))
      {
        MarkEntry(level, t, ENTRIES, i, m0, r0);
        i := i + 1;
      }
    }

    /** `markAsCoW`: the same for the user half of a top-level table. */
    method MarkAsCoW(p4: nat)
      requires Ready() && Markable(LEVELS, p4, USER_ENTRIES)
      modifies mem, phys.refCount
      ensures Ready() && S().used == old(S().used)
      ensures MarkedBelow(old(S().mem), S().mem, LEVELS, p4, USER_ENTRIES)
      ensures Bumped(old(S().refs), S().refs, Met(old(S().mem), LEVELS, p4, USER_ENTRIES))
    {
      ghost var m0, r0 := S().mem, S().refs;
      NothingMarked(m0, LEVELS, p4);
      var i := 0;
      while i < USER_ENTRIES
        invariant i <= USER_ENTRIES
        invariant Ready() && S().used == old(S().used)
        invariant MarkedBelow(m0, S().mem, LEVELS, p4, i) && Bumped(r0, S().refs, Met(m0, LEVELS, p4, i))
      {
        MarkEntry(LEVELS, p4, USER_ENTRIES, i, m0, r0);
        i := i + 1;
      }
    }

    // ----------------------------------------------------------------- fork

    /** The copy of a top-level table, its last entry mapping the copy itself. */
    method CopyTop(p4: nat, child: nat)
      requires Ready() && IsTable(S().mem, p4) && child < mem.Length
      modifies mem
      ensures Ready()
      ensures var es := old(S().mem)[p4].es;
        S() == old(S()).(mem :=
          old(S().mem)[child := Table(es[RECURSIVE_ENTRY := es[RECURSIVE_ENTRY].(frame := child)])])
    {
      ghost var m := mem[..];
      mem[child] := mem[p4];
      SetEntry(child, RECURSIVE_ENTRY, mem[child].es[RECURSIVE_ENTRY].(frame := child));
      assert mem[..] == m[child := mem[child]];
    }

    /** A frame taken and given back. */
    method GiveBack(f: nat, ghost s0: State)
      requires Ready() && Inv(s0) && f !in s0.used && 0 < f < mem.Length == |s0.refs|
      requires S() == s0.(refs := s0.refs[f := 1], used := s0.used + {f})
      modifies phys, phys.bitmap, phys.refCount
      ensures Valid() && Unchanged(s0, S())
    {
      ReleaseFrame(f);
      UnchangedKeepsInv(s0, S());
    }

    /** `clonePageTable`.  `mapped` tells whether the temporary mapping of the new
        frame succeeds.  Returns 0, with nothing in use changed, if memory runs out. */
    method ClonePageTable(p4: nat, mapped: bool) returns (child: nat)
      requires Valid() && p4 in roots
      modifies this`roots, mem, phys, phys.bitmap, phys.refCount
      ensures Valid()
      ensures child == 0 <==> !mapped || FreeFrames(old(S())) == {}
      ensures child == 0 ==> Unchanged(old(S()), S())
      ensures child != 0 ==> ForkStep(old(S()), S(), p4, child) && roots == old(roots) + {child}
      ensures child == 0 ==> roots == old(roots)
    {
      hide Tree, Met, Bumped, MarkedBelow, Inv, ForkStep;
      ghost var s0 := S();
      RootIsMarkable(s0, p4);
      child := NewFrame();
      if child == 0 { return; }
      if !mapped {
        GiveBack(child, s0);
        child := 0;
        return;
      }
      MarkAsCoW(p4);
      ghost var m := S().mem;
      MarkedLinks(s0.mem, m, LEVELS, p4, USER_ENTRIES);
      CopyTop(p4, child);
      roots := roots + {child};
      PassIsFork(s0, m, S(), p4, child);
      ForkKeepsInv(s0, S(), p4, child);
    }

    /** The copy, the clearing loop and the new recursive entry. */
    method CopyWithEmptyUserHalf(root: nat, p4: nat)
      requires Ready() && IsTable(S().mem, p4) && root < mem.Length && root != p4
      modifies mem
      ensures Ready()
      ensures var es := Emptied(old(S().mem)[p4].es, USER_ENTRIES);
        S() == old(S()).(mem := old(S().mem)[root := Table(es[RECURSIVE_ENTRY := es[RECURSIVE_ENTRY].(frame := root)])])
    {
      hide Emptied;
      ghost var s, es := S(), mem[p4].es;
      mem[root] := mem[p4];
      EmptiedNone(es);
      assert S().mem == s.mem[root := Table(Emptied(es, 0))];
      var i := 0;
      while i < USER_ENTRIES
        invariant i <= USER_ENTRIES && Ready()
        invariant S() == s.(mem := s.mem[root := Table(Emptied(es, i))])
      {
        EmptiedNext(es, i);
        SetEntry(root, i, EMPTY);
        i := i + 1;
      }
      SetEntry(root, RECURSIVE_ENTRY, mem[root].es[RECURSIVE_ENTRY].(frame := root));
    }

    /** `newPageTable`: the kernel half of the current table and an empty user
        half.  The code does not check its allocations, so a free frame is assumed. */
    method NewPageTable(p4: nat) returns (root: nat)
      requires Valid() && p4 in roots && FreeFrames(S()) != {}
      modifies this`roots, mem, phys, phys.bitmap, phys.refCount
      ensures Valid() && NewRootStep(old(S()), S(), p4, root)
    {
      hide Inv, RootsOk, Typed, Emptied;
      ghost var s0 := S();
      TopIsThere(s0, p4);
      root := NewFrame();
      CopyWithEmptyUserHalf(root, p4);
      roots := roots + {root};
      BuiltNewRoot(s0, S(), p4, root);
      NewRootKeepsInv(s0, S(), p4, root);
    }

    // ----------------------------------------------------------------- exit

    /** `disposePageTableRec`: post-order, one reference off every frame met.  A
        table is read only while it is still allocated. */
    method DisposePageTableRec(level: nat, t: nat)
      requires Ready() && Tree(S().mem, level, t, ENTRIES) && (level > 0 ==> IsTable(S().mem, t) && t in S().used)
      requires t !in Met(S().mem, level, t, ENTRIES)
      requires AllHeld(S().refs, S().used, Met(S().mem, level, t, ENTRIES))
      modifies phys, phys.bitmap, phys.refCount
      ensures Ready()
      ensures Dropped(old(S().refs), old(S().used), S().refs, S().used, Met(S().mem, level, t, ENTRIES))
      decreases level
    {
      hide Tree, Met, Dropped, AllHeld;
      ghost var m, r0, u0 := S().mem, S().refs, S().used;
      NothingDropped(r0, u0, m, level, t);
      if level == 0 { NoLevels(m, t, r0, u0); return; }
      var i := 0;
      while i < ENTRIES
        invariant i <= ENTRIES
        invariant Ready() && S().mem == m
        invariant Dropped(r0, u0, S().refs, S().used, Met(m, level, t, i))
      {
        StillAllocated(m, level, t, i, r0, u0, S().refs, S().used);
        if mem[t].es[i].present {
          ghost var r1, u1 := S().refs, S().used;
          ChildIsDisposable(m, level, t, ENTRIES, i, r0, u0, r1, u1);
          DisposePageTableRec(level - 1, mem[t].es[i].frame);
          ghost var r2, u2 := S().refs, S().used;
          ChildStillHeld(m, level, t, i, r1, u1, r2, u2);
          ReleaseFrame(mem[t].es[i].frame);
          DropOne(r2, u2, mem[t].es[i].frame);
          DropAdvances(m, level, t, ENTRIES, i, r0, u0, r1, u1, r2, u2, S().refs, S().used);
        } else {
          BumpSkips(m, level, t, i);
        }
        i := i + 1;
      }
    }

    /** One entry of the exit loop. */
    method DisposeEntry(p4: nat, i: nat, ghost s0: State)
      requires Ready() && i < USER_ENTRIES && roots == s0.roots && reserved == s0.reserved
        && |s0.mem| == |s0.refs| == mem.Length
      requires Tree(s0.mem, LEVELS, p4, USER_ENTRIES) && IsTable(s0.mem, p4)
      requires AllHeld(s0.refs, s0.used, Met(s0.mem, LEVELS, p4, USER_ENTRIES))
      requires S().mem == s0.mem[p4 := Table(Cleared(s0.mem[p4].es, i))]
      requires Dropped(s0.refs, s0.used, S().refs, S().used, Met(s0.mem, LEVELS, p4, i))
      modifies mem, phys, phys.bitmap, phys.refCount
      ensures Ready() && S().mem == s0.mem[p4 := Table(Cleared(s0.mem[p4].es, i + 1))]
      ensures Dropped(s0.refs, s0.used, S().refs, S().used, Met(s0.mem, LEVELS, p4, i + 1))
    {
      hide Tree, Met, Dropped, Cleared, AllHeld;
      ghost var es := s0.mem[p4].es;
      ClearNext(es, i);
      if mem[p4].es[i].present {
        ghost var r1, u1 := S().refs, S().used;
        ChildIsDisposable(s0.mem, LEVELS, p4, USER_ENTRIES, i, s0.refs, s0.used, r1, u1);
        ClearedTopKeepsChild(s0.mem, LEVELS, p4, USER_ENTRIES, i, Table(Cleared(es, i)));
        DisposePageTableRec(LEVELS - 1, mem[p4].es[i].frame);
        ghost var r2, u2 := S().refs, S().used;
        ChildStillHeld(s0.mem, LEVELS, p4, i, r1, u1, r2, u2);
        ReleaseFrame(mem[p4].es[i].frame);
        DropOne(r2, u2, mem[p4].es[i].frame);
        DropAdvances(s0.mem, LEVELS, p4, USER_ENTRIES, i, s0.refs, s0.used, r1, u1, r2, u2, S().refs, S().used);
        SetEntry(p4, i, EMPTY);
      } else {
        BumpSkips(s0.mem, LEVELS, p4, i);
      }
    }

    /** `deallocateUserMemory`. */
    method DeallocateUserMemory(p4: nat)
      requires Valid() && p4 in roots
      modifies mem, phys, phys.bitmap, phys.refCount
      ensures Valid() && ExitStep(old(S()), S(), p4)
    {
      hide Tree, Met, Dropped, AllHeld, Inv;
      ghost var s0 := S();
      RootIsMarkable(s0, p4);
      ghost var es := s0.mem[p4].es;
      NothingDropped(s0.refs, s0.used, s0.mem, LEVELS, p4);
      ClearNext(es, 0);
      assert s0.mem == s0.mem[p4 := Table(es)];
      var i := 0;
      while i < USER_ENTRIES
        invariant i <= USER_ENTRIES
        invariant Ready() && S().mem == s0.mem[p4 := Table(Cleared(es, i))] && roots == s0.roots
        invariant Dropped(s0.refs, s0.used, S().refs, S().used, Met(s0.mem, LEVELS, p4, i))
      {
        DisposeEntry(p4, i, s0);
        i := i + 1;
      }
      PassIsExit(s0, S(), p4);
      ExitKeepsInv(s0, S(), p4);
    }

    // ------------------------------------------------------- the fault handler

    /** `checkAndMoveToNext` at depth j of path q.  When the check fails, a user access
        ends the process and a kernel access stops the machine.  In the upper half a
        user access fails at the first entry. */
    method CheckAndMoveToNext(t: nat, i: nat, a: Access, ghost p4: nat, ghost q: seq<nat>, ghost j: nat)
      returns (ok: bool, next: nat)
      requires Valid() && p4 in roots && |q| == LEVELS && j < LEVELS && i == q[j] < ENTRIES
      requires InHalf(q) || (a.user && j == 0)
      requires Walk(S().mem, p4, q[..j]) == Some(t) && IsTable(S().mem, t)
      ensures ok <==> Admits(a, Ent(S().mem, p4, q[..j + 1]))
      ensures ok ==> Moved(S(), p4, q, t, j, next)
    {
      hide Inv, Typed;
      ghost var s := S();
      InvParts(s);
      AlongPath(s, p4, q, t, j);
      var e := mem[t].es[i];
      next := e.frame;
      if !e.present { return false, 0; }
      if !e.user && a.user { return false, 0; }
      Moves(s, p4, q, t, j, a);
      if a.fetch && e.noExecute { return false, 0; }
      if e.cow { return true, next; }
      if a.write && !e.writable { return false, 0; }
      ok := true;
    }

    /** The four checks, top level first, and the frames they lead to. */
    method CheckPath(p4: nat, q: seq<nat>, a: Access) returns (ok: bool, frames: seq<nat>)
      requires Valid() && p4 in roots && |q| == LEVELS && forall j :: 0 <= j < |q| ==> q[j] < ENTRIES
      requires a.user || q[0] != RECURSIVE_ENTRY
      ensures ok <==> AllAdmit(a, S(), p4, q)
      ensures ok ==> LeafFound(S(), p4, q, frames)
    {
      hide Inv, AllAdmit, Moved, FaultPath, LeafFound, Admits, Walk, Ent, InHalf;
      ghost var s := S();
      if !a.user { OutsideTables(q); }
      TopStep(s, p4, q);
      frames := [];
      var p3, p2, p1, p0;
      ok, p3 := CheckAndMoveToNext(p4, q[0], a, p4, q, 0);
      if !ok { FailedCheck(a, s, p4, q, 1); return; }
      MovedParts(s, p4, q, p4, 0, p3);
      ok, p2 := CheckAndMoveToNext(p3, q[1], a, p4, q, 1);
      if !ok { FailedCheck(a, s, p4, q, 2); return; }
      MovedParts(s, p4, q, p3, 1, p2);
      ok, p1 := CheckAndMoveToNext(p2, q[2], a, p4, q, 2);
      if !ok { FailedCheck(a, s, p4, q, 3); return; }
      MovedParts(s, p4, q, p2, 2, p1);
      ok, p0 := CheckAndMoveToNext(p1, q[3], a, p4, q, 3);
      if !ok { FailedCheck(a, s, p4, q, 4); return; }
      frames := [p4, p3, p2, p1, p0];
      AllChecked(a, s, p4, q);
      LeafIsFound(s, p4, q, frames);
    }

    /** A copy of table t with entry i repointed. */
    method CopyTable(copy: nat, t: nat, i: nat, target: nat)
      requires Ready() && IsTable(S().mem, t) && i < ENTRIES && copy < mem.Length
      modifies mem
      ensures Ready() && S() == old(S()).(mem := old(S().mem)[copy := Patched(old(S().mem), t, i, target)])
    {
      ghost var m := mem[..];
      mem[copy] := mem[t];
      SetEntry(copy, i, mem[copy].es[i].Resolve(target));
      assert mem[..] == m[copy := mem[copy]];
    }

    /** The in-place update of a table of one's own. */
    method Repoint(t: nat, i: nat, target: nat)
      requires Ready() && IsTable(S().mem, t) && i < ENTRIES
      modifies mem
      ensures Ready() && S() == old(S()).(mem := old(S().mem)[t := Patched(old(S().mem), t, i, target)])
    {
      SetEntry(t, i, mem[t].es[i].Resolve(target));
    }

    /** `allocFailureCleanup`: gives back whatever was allocated. */
    method CleanUp(p3New: nat, p2New: nat, p1New: nat, p0New: nat, ghost s0: State)
      requires Ready() && Scratch(s0, S(), NonZero(p3New) + NonZero(p2New) + NonZero(p1New) + NonZero(p0New))
      requires p3New < mem.Length && p2New < mem.Length && p1New < mem.Length && p0New < mem.Length
      modifies phys, phys.bitmap, phys.refCount
      ensures Ready() && Unchanged(s0, S())
    {
      hide Scratch, Unchanged;
      ghost var s := S();
      ghost var f2, f1, f0 := NonZero(p2New), NonZero(p1New), NonZero(p0New);
      ghost var s3 := DropIf(s, p3New);
      ghost var s2 := DropIf(s3, p2New);
      ghost var s1 := DropIf(s2, p1New);
      DropFour(s, p3New, p2New, p1New, p0New);
      ReleaseIfAny(p3New);
      ReleaseIfAny(p2New);
      ReleaseIfAny(p1New);
      ReleaseIfAny(p0New);
      CleanedUp(s0, s, NonZero(p3New) + f2 + f1 + f0);
    }

    method ReleaseIfAny(f: nat)
      requires Ready() && f < mem.Length
      modifies phys, phys.bitmap, phys.refCount
      ensures Ready() && S() == DropIf(old(S()), f)
    {
      if f != 0 { ReleaseFrame(f); }
    }

    /** The block that copies the page: allocate, map, copy. */
    method CopyLeaf(p4: nat, q: seq<nat>, frames: seq<nat>, mapped: bool, ghost s0: State) returns (copy: nat, ok: bool)
      requires Ready() && S() == s0 && FaultPath(s0, p4, q, frames)
      modifies mem, phys, phys.bitmap, phys.refCount
      ensures Ready() && copy < mem.Length && (ok ==> copy != 0)
      ensures ok <==> FreeFrames(s0) != {} && mapped
      ensures ok ==> Copied(s0, S(), p4, q, frames, LEVELS, [0, 0, 0, 0, copy])
      ensures !ok ==> Scratch(s0, S(), NonZero(copy))
    {
      hide Scratch, Copied;
      ScratchStarts(s0);
      copy := NewFrame();
      if copy == 0 { return copy, false; }
      assert [copy] + [] == [copy];
      ScratchAlloc(s0, s0, [], copy, S());
      if !mapped { return copy, false; }
      ghost var s := S();
      ghost var m := mem[..];
      mem[copy] := mem[frames[LEVELS]];
      assert mem[..] == m[copy := m[frames[LEVELS]]];
      FirstCopy(s0, s, p4, q, frames, copy, S());
      ok := true;
    }

    /** The block that copies the table at depth d: allocate, map, copy, repoint. */
    method CopyLevel(p4: nat, q: seq<nat>, frames: seq<nat>, d: nat, target: nat, mapped: bool, ghost copies: seq<nat>,
        ghost s0: State)
      returns (copy: nat, ok: bool)
      requires Ready() && 0 < d < LEVELS && Copied(s0, S(), p4, q, frames, d + 1, copies) && target == copies[d + 1]
      modifies mem, phys, phys.bitmap, phys.refCount
      ensures Ready() && copy < mem.Length && (ok ==> copy != 0)
      ensures ok <==> LEVELS - d < |FreeFrames(s0)| && mapped
      ensures ok ==> Copied(s0, S(), p4, q, frames, d, copies[d := copy])
      ensures !ok ==> Scratch(s0, S(), NonZero(copy) + copies[d + 1..])
    {
      hide Scratch, FaultPath, Patched, FreeFrames;
      ghost var s := S();
      OnTheWay(s0, p4, q, frames, d);
      ScratchFree(s0, s, copies[d + 1..]);
      copy := NewFrame();
      if copy == 0 {
        assert NonZero(copy) + copies[d + 1..] == copies[d + 1..];
        return copy, false;
      }
      ghost var s1 := S();
      ScratchAlloc(s0, s, copies[d + 1..], copy, s1);
      if !mapped { return copy, false; }
      ScratchKeeps(s0, s, copies[d + 1..], frames[d], copy);
      CopyTable(copy, frames[d], q[d], target);
      NextCopy(s0, s, p4, q, frames, d, copies, copy, s1, S());
      ok := true;
    }

    /** The tail of each of the four exits: repoint the entry at depth k in place
        and drop the replaced frames, top first. */
    method Install(c: Repair, ghost s0: State)
      requires Ready() && Inv(s0) && roots == s0.roots && OnPath(s0, c)
        && Copied(s0, S(), c.root, c.q, c.frames, c.k + 1, c.copies)
      modifies mem, phys, phys.bitmap, phys.refCount
      ensures Valid() && FaultStep(s0, S(), c)
    {
      hide OnPath, Inv, Copied, FaultStep, DropAll;
      ghost var s := S();
      ReplacedFrames(s0, c);
      KeptTable(s0, s, c.root, c.q, c.frames, c.k, c.copies);
      Repoint(c.frames[c.k], c.q[c.k], c.copies[c.k + 1]);
      Installed(s0, s, c, S());
      DropTail(S(), c.frames, c.k);
      if c.k < 1 { ReleaseFrame(c.frames[1]); }
      if c.k < 2 { ReleaseFrame(c.frames[2]); }
      if c.k < 3 { ReleaseFrame(c.frames[3]); }
      ReleaseFrame(c.frames[4]);
      FaultKeepsInv(s0, S(), c);
    }

    /** `pageFaultHandlerWithFrame`, for any access but those of the kernel to the addresses
        of the tables themselves.  mapped[i] tells whether the i-th temporary mapping
        succeeds. */
    method PageFault(p4: nat, addr: nat, a: Access, mapped: seq<bool>) returns (outcome: Outcome)
      requires Valid() && p4 in roots && |mapped| == LEVELS && (a.user || PathAt(addr)[0] != RECURSIVE_ENTRY)
      modifies mem, phys, phys.bitmap, phys.refCount
      ensures Valid()
      ensures outcome == Panic <==> !a.user && !AllAdmit(a, old(S()), p4, PathAt(addr))
      ensures outcome == Resolved <==>
        && AllAdmit(a, old(S()), p4, PathAt(addr)) && LeafIsCow(old(S()), p4, PathAt(addr))
        && EnoughFor(old(S()), p4, PathAt(addr), mapped)
      ensures outcome == OutOfMemory <==>
        && AllAdmit(a, old(S()), p4, PathAt(addr)) && LeafIsCow(old(S()), p4, PathAt(addr))
        && !EnoughFor(old(S()), p4, PathAt(addr), mapped)
      ensures outcome == Resolved ==> Repaired(old(S()), S(), p4, PathAt(addr))
      ensures outcome == OutOfMemory ==> Unchanged(old(S()), S())
      ensures outcome == Violation ==> ExitStep(old(S()), S(), p4)
      ensures outcome == Violation && a == USER_WRITE ==>
        !ChecksPass(old(S()), p4, PathAt(addr)) || HardwareAllows(old(S()), p4, PathAt(addr))
      ensures outcome == Panic ==> S() == old(S())
      ensures outcome == Resolved || outcome == OutOfMemory ==> PagePath(PathAt(addr))
    {
      hide Inv, ChecksPass, FaultPath, LeafFound, Copied, OnPath, FaultStep, ExitStep, Unchanged, HardwareAllows,
        PathAt, Scratch, AllAdmit, EnoughFor;
      ghost var s0 := S();
      var q := PathAt(addr);
      UserWriteChecks(s0, p4, q);
      var ok, frames := CheckPath(p4, q, a);
      if !ok {
        if !a.user { return Panic; }
        DeallocateUserMemory(p4);
        return Violation;
      }
      LeafParts(s0, p4, q, frames);
      if !mem[frames[3]].es[q[3]].cow {
        if a == USER_WRITE { NothingToRepair(s0, p4, q, frames); }
        DeallocateUserMemory(p4);
        return Violation;
      }
      if KernelPath(q) { KernelIsNotCow(s0, p4, q); }
      outcome := Unshare(p4, q, frames, mapped, s0);
    }

    /** The end of each exit, at the depth d of the lowest private table. */
    method Finish(p4: nat, q: seq<nat>, frames: seq<nat>, d: nat, copies: seq<nat>, ghost s0: State,
        ghost mapped: seq<bool>)
      returns (outcome: Outcome)
      requires Ready() && Inv(s0) && roots == s0.roots && d < LEVELS && Copied(s0, S(), p4, q, frames, d + 1, copies)
      requires PathEntry(s0, q, frames, d).cow && (d > 0 ==> !PathEntry(s0, q, frames, d - 1).cow)
      requires Enough(s0, LEVELS - d, mapped)
      modifies mem, phys, phys.bitmap, phys.refCount
      ensures Done(outcome, p4, q, s0, mapped)
    {
      hide Inv, OnPath, FaultStep, Scratch, Enough, CowEntries;
      FinalCount(s0, S(), p4, q, frames, d, copies);
      RepairReady(s0, p4, q, frames, d, copies);
      Install(Repair(p4, q, frames, d, copies), s0);
      outcome := Resolved;
    }

    /** The block that copies the table at depth d, with its failure exit. */
    method CopyStage(p4: nat, q: seq<nat>, frames: seq<nat>, d: nat, copies0: seq<nat>, mapped: bool, ghost s0: State)
      returns (copies: seq<nat>, ok: bool)
      requires Ready() && Inv(s0) && 0 < d < LEVELS && roots == s0.roots
      requires Copied(s0, S(), p4, q, frames, d + 1, copies0) && CopiesFrom(copies0, d + 1)
      modifies mem, phys, phys.bitmap, phys.refCount
      ensures ok <==> LEVELS - d < |FreeFrames(s0)| && mapped
      ensures ok ==> Ready() && Copied(s0, S(), p4, q, frames, d, copies) && CopiesFrom(copies, d)
      ensures !ok ==> Valid() && Unchanged(s0, S())
    {
      hide Inv, FaultPath, Copied, Unchanged, Scratch, CopiesFrom, FreeFrames;
      CopiesSize(copies0, d + 1);
      var copy;
      copy, ok := CopyLevel(p4, q, frames, d, copies0[d + 1], mapped, copies0, s0);
      copies := copies0[d := copy];
      if ok { NextCopies(copies0, d, copy); } else { GiveUp(d, copies0, copies, s0); }
    }

    /** The page is copied; if its table is private that is all. */
    method Unshare(p4: nat, q: seq<nat>, frames: seq<nat>, mapped: seq<bool>, ghost s0: State)
      returns (outcome: Outcome)
      requires Valid() && S() == s0 && |mapped| == LEVELS
      requires FaultPath(s0, p4, q, frames) && PathEntry(s0, q, frames, 3).cow
      modifies mem, phys, phys.bitmap, phys.refCount
      ensures Done(outcome, p4, q, s0, mapped)
    {
      hide Inv, FaultPath, Copied, Unchanged, Scratch, Repaired, CowDown, CowEntries, FreeFrames, PathEntry, CopiesFrom;
      InvParts(s0);
      var p0New, ok := CopyLeaf(p4, q, frames, mapped[0], s0);
      var copies := [0, 0, 0, 0, p0New];
      LeafAlone(p0New);
      if !ok {
        GiveUp(LEVELS, [0, 0, 0, 0, 0], copies, s0);
        TooFew(s0, p4, q, frames, 0, mapped);
        return OutOfMemory;
      }
      TablesKept(s0, S(), p4, q, frames, 4, copies);
      EntryKept(s0, S(), p4, q, frames, 2, 4, copies);
      OneMore(s0, 0, mapped);
      if !mem[frames[2]].es[q[2]].cow {
        outcome := Finish(p4, q, frames, 3, copies, s0, mapped);
      } else {
        outcome := UnshareP1(p4, q, frames, mapped, copies, s0);
      }
    }

    /** The last-level table is copied; if the table above it is private that is all. */
    method UnshareP1(p4: nat, q: seq<nat>, frames: seq<nat>, mapped: seq<bool>, copies0: seq<nat>, ghost s0: State)
      returns (outcome: Outcome)
      requires Ready() && Inv(s0) && roots == s0.roots && |mapped| == LEVELS && CopiesFrom(copies0, 4)
      requires Copied(s0, S(), p4, q, frames, 4, copies0) && PathEntry(s0, q, frames, 2).cow && Enough(s0, 1, mapped)
      modifies mem, phys, phys.bitmap, phys.refCount
      ensures Done(outcome, p4, q, s0, mapped)
    {
      hide Inv, FaultPath, Copied, Unchanged, Scratch, Repaired, CopiesFrom, PathEntry, CowDown, CowEntries,
        FreeFrames;
      InvParts(s0);
      CopiedPath(s0, S(), p4, q, frames, 4, copies0);
      var copies, ok := CopyStage(p4, q, frames, 3, copies0, mapped[1], s0);
      if !ok { TooFew(s0, p4, q, frames, 1, mapped); return OutOfMemory; }
      OneMore(s0, 1, mapped);
      TablesKept(s0, S(), p4, q, frames, 3, copies);
      EntryKept(s0, S(), p4, q, frames, 1, 3, copies);
      if !mem[frames[1]].es[q[1]].cow {
        outcome := Finish(p4, q, frames, 2, copies, s0, mapped);
      } else {
        outcome := UnshareP2(p4, q, frames, mapped, copies, s0);
      }
    }

    method UnshareP2(p4: nat, q: seq<nat>, frames: seq<nat>, mapped: seq<bool>, copies0: seq<nat>, ghost s0: State)
      returns (outcome: Outcome)
      requires Ready() && Inv(s0) && roots == s0.roots && |mapped| == LEVELS && CopiesFrom(copies0, 3)
      requires Copied(s0, S(), p4, q, frames, 3, copies0) && PathEntry(s0, q, frames, 1).cow && Enough(s0, 2, mapped)
      modifies mem, phys, phys.bitmap, phys.refCount
      ensures Done(outcome, p4, q, s0, mapped)
    {
      hide Inv, FaultPath, Copied, Unchanged, Scratch, Repaired, CopiesFrom, PathEntry, CowDown, CowEntries,
        FreeFrames;
      InvParts(s0);
      CopiedPath(s0, S(), p4, q, frames, 3, copies0);
      var copies, ok := CopyStage(p4, q, frames, 2, copies0, mapped[2], s0);
      if !ok { TooFew(s0, p4, q, frames, 2, mapped); return OutOfMemory; }
      OneMore(s0, 2, mapped);
      TablesKept(s0, S(), p4, q, frames, 2, copies);
      EntryKept(s0, S(), p4, q, frames, 0, 2, copies);
      if !mem[frames[0]].es[q[0]].cow {
        outcome := Finish(p4, q, frames, 1, copies, s0, mapped);
      } else {
        outcome := UnshareP3(p4, q, frames, mapped, copies, s0);
      }
    }

    /** The table under the root is copied too; the root is always private. */
    method UnshareP3(p4: nat, q: seq<nat>, frames: seq<nat>, mapped: seq<bool>, copies0: seq<nat>, ghost s0: State)
      returns (outcome: Outcome)
      requires Ready() && Inv(s0) && roots == s0.roots && |mapped| == LEVELS && CopiesFrom(copies0, 2)
      requires Copied(s0, S(), p4, q, frames, 2, copies0) && PathEntry(s0, q, frames, 0).cow && Enough(s0, 3, mapped)
      modifies mem, phys, phys.bitmap, phys.refCount
      ensures Done(outcome, p4, q, s0, mapped)
    {
      hide Inv, FaultPath, Copied, Unchanged, Scratch, Repaired, CopiesFrom, PathEntry, CowDown, CowEntries,
        FreeFrames;
      InvParts(s0);
      CopiedPath(s0, S(), p4, q, frames, 2, copies0);
      var copies, ok := CopyStage(p4, q, frames, 1, copies0, mapped[3], s0);
      if !ok { TooFew(s0, p4, q, frames, 3, mapped); return OutOfMemory; }
      OneMore(s0, 3, mapped);
      outcome := Finish(p4, q, frames, 0, copies, s0, mapped);
    }

    /** What the copying stages achieve: the repair, exactly if a frame and a mapping can be
        had for each copy-on-write entry of the path. */
    ghost predicate Done(outcome: Outcome, p4: nat, q: seq<nat>, s0: State, mapped: seq<bool>)
      reads this, mem, phys, phys.bitmap, phys.refCount
    {
      && Valid()
      && if EnoughFor(s0, p4, q, mapped) then outcome == Resolved && Repaired(s0, S(), p4, q)
         else outcome == OutOfMemory && Unchanged(s0, S())
    }

    /** The failure exit of the block at depth d: whatever was allocated goes back. */
    method GiveUp(d: nat, ghost copies0: seq<nat>, copies: seq<nat>, ghost s0: State)
      requires Ready() && Inv(s0) && 0 < d <= LEVELS && CopiesFrom(copies0, d + 1) && |copies| == LEVELS + 1
      requires copies == copies0[d := copies[d]]
      requires Scratch(s0, S(), NonZero(copies[d]) + copies0[d + 1..])
      modifies mem, phys, phys.bitmap, phys.refCount
      ensures Valid() && Unchanged(s0, S())
    {
      hide Inv, Scratch, Unchanged, CopiesFrom;
      CopiesSize(copies0, d + 1);
      AllocatedSoFar(s0, S(), d, copies0, copies);
      CleanUp(copies[1], copies[2], copies[3], copies[4], s0);
      UnchangedKeepsInv(s0, S());
    }
  }

  /** One successful check extends the path, in either half. */
  lemma Moves(s: State, r: nat, q: seq<nat>, t: nat, j: nat, a: Access)
    requires Inv(s) && r in s.roots && |q| == LEVELS && j < LEVELS && q[j] < ENTRIES
    requires InHalf(q) || (a.user && j == 0)
    requires Walk(s.mem, r, q[..j]) == Some(t) && IsTable(s.mem, t) && s.mem[t].es[q[j]].present
    requires a.user ==> s.mem[t].es[q[j]].user
    ensures Moved(s, r, q, t, j, s.mem[t].es[q[j]].frame)
  {
    hide Inv;
    InvParts(s);
    AlongPath(s, r, q, t, j);
    if !InHalf(q) { UserIsLow(s, r, q); }
    if j + 1 < LEVELS { ShortWalk(s, r, q[..j + 1]); }
    if PagePath(q) { NextOnPath(s, r, q, t, j); }
  }

  /** The frames start-up leaves allocated. */
  ghost function TakenAtStart(pagesCount: nat, firstUnused: nat, unavailable: seq<FrameRange>): set<nat> {
    set p: nat | p < pagesCount && (p < firstUnused || InSome(unavailable, p))
  }

  ghost function StartState(contents: seq<Frame>, counts: seq<nat>, taken: set<nat>, root: nat): State {
    State(contents, counts, taken, {root}, taken - {root})
  }

  /** Start-up, from the memory the boot code leaves and the memory map: the frame
      allocator and the one address space satisfy their invariants. */
  method StartUp(contents: seq<Frame>, words: seq<bv64>, counts: seq<nat>, firstUnused: nat,
                 multiboot: FrameRange, initrd: FrameRange, unavailable: seq<FrameRange>, ghost root: nat)
    returns (k: CoW)
    requires 0 < |contents| && PAGE_SIZE * |contents| <= WORD_LIMIT
    requires |words| == (|contents| + BITS - 1) / BITS && |counts| == |contents| && 0 < firstUnused <= |contents|
    requires multiboot.start <= multiboot.end && initrd.start <= initrd.end
    requires forall i: nat :: i < |unavailable| ==> unavailable[i].start <= unavailable[i].end
    requires forall p :: |contents| <= p < BITS * |words| ==> BitIn(words, p)
    requires Boot(StartState(contents, counts, TakenAtStart(|contents|, firstUnused, unavailable), root), root)
    ensures fresh(k) && k.Valid()
    ensures k.S() == StartState(contents, counts, TakenAtStart(|contents|, firstUnused, unavailable), root)
  {
    hide Boot, InSome;
    ghost var taken := TakenAtStart(|contents|, firstUnused, unavailable);
    var phys := new PhysAllocator(|contents|, words, counts, firstUnused, multiboot, initrd, unavailable);
    var mem := new Frame[|contents|](i requires 0 <= i < |contents| => contents[i]);
    assert mem[..] == contents;
    assert phys.Used() == taken;
    k := new CoW(phys, mem, root, taken - {root});
  }

  /** A small machine: a table for each entry of the kernel half, and a top-level table
      that leads to them. */
  const SMALL_ROOT: nat := 255

  function TopTable(): Frame {
    Table(seq(ENTRIES, i requires 0 <= i < ENTRIES => if i < USER_ENTRIES then EMPTY
      else Entry(i - USER_ENTRIES, true, true, false, false, false, false, false)))
  }

  function SmallMemory(): seq<Frame> {
    seq(SMALL_ROOT + 1, i => if i < SMALL_ROOT then EmptyTable() else TopTable())
  }

  ghost function SmallStart(): State {
    StartState(SmallMemory(), seq(SMALL_ROOT + 1, i => 1), TakenAtStart(SMALL_ROOT + 1, SMALL_ROOT + 1, []), SMALL_ROOT)
  }

  lemma SmallFrames()
    ensures |SmallMemory()| == SMALL_ROOT + 1 && SmallMemory()[SMALL_ROOT] == TopTable()
    ensures forall t: nat | t < SMALL_ROOT :: SmallMemory()[t] == EmptyTable()
  {}

  lemma TopEntries(i: nat)
    requires i < ENTRIES
    ensures TopTable().Table? && |TopTable().es| == ENTRIES
    ensures TopTable().es[i] == if i < USER_ENTRIES then EMPTY
      else Entry(i - USER_ENTRIES, true, true, false, false, false, false, false)
  {}

  lemma SmallTables(i: nat)
    ensures |SmallMemory()| == SMALL_ROOT + 1 && IsTable(SmallMemory(), SMALL_ROOT)
    ensures forall t: nat | t < SMALL_ROOT :: IsTable(SmallMemory(), t) && Lookup(SmallMemory(), t, i).None?
    ensures Lookup(SmallMemory(), SMALL_ROOT, i) == if USER_ENTRIES <= i < ENTRIES
      then Some(Entry(i - USER_ENTRIES, true, true, false, false, false, false, false)) else None
  {
    SmallFrames();
    TopEntries(0);
    if i < ENTRIES { TopEntries(i); }
    hide SmallMemory, TopTable;
  }

  /** One step from the root to an empty table, and no further. */
  lemma ShallowPaths(mem: seq<Frame>, p: seq<nat>)
    requires KernelPath(p) && Ent(mem, SMALL_ROOT, p).Some?
    requires forall i: nat | USER_ENTRIES <= i < ENTRIES ::
      Lookup(mem, SMALL_ROOT, i) == Some(Entry(i - USER_ENTRIES, true, true, false, false, false, false, false))
    requires forall t: nat, i: nat | t < SMALL_ROOT :: Lookup(mem, t, i).None?
    ensures |p| == 1 && Walk(mem, SMALL_ROOT, p) == Some(p[0] - USER_ENTRIES) && !Ent(mem, SMALL_ROOT, p).value.cow
  {
    hide Lookup;
    assert p[..1] == [] + [p[0]];
    WalkSnoc(mem, SMALL_ROOT, [], p[0]);
    NoDeeper(mem, p);
  }

  lemma {:induction false} NoDeeper(mem: seq<Frame>, p: seq<nat>)
    requires |p| > 0 && Walk(mem, SMALL_ROOT, p[..1]).Some? && Walk(mem, SMALL_ROOT, p[..1]).value < SMALL_ROOT
    requires forall t: nat, i: nat | t < SMALL_ROOT :: Lookup(mem, t, i).None?
    ensures |p| > 1 ==> Walk(mem, SMALL_ROOT, p).None? && Ent(mem, SMALL_ROOT, p).None?
    ensures |p| == 1 ==> p == p[..1]
    decreases |p|
  {
    hide Lookup;
    if |p| > 1 {
      var front := p[..|p| - 1];
      assert front[..1] == p[..1];
      NoDeeper(mem, front);
    }
  }

  lemma SmallPaths(p: seq<nat>)
    requires KernelPath(p) && Ent(SmallMemory(), SMALL_ROOT, p).Some?
    ensures |p| == 1 && Walk(SmallMemory(), SMALL_ROOT, p) == Some(p[0] - USER_ENTRIES)
    ensures !Ent(SmallMemory(), SMALL_ROOT, p).value.cow
  {
    hide SmallMemory, Lookup;
    forall i: nat | USER_ENTRIES <= i < ENTRIES
      ensures Lookup(SmallMemory(), SMALL_ROOT, i)
        == Some(Entry(i - USER_ENTRIES, true, true, false, false, false, false, false))
    {
      SmallTables(i);
    }
    forall t: nat, i: nat | t < SMALL_ROOT ensures Lookup(SmallMemory(), t, i).None? { SmallTables(i); }
    ShallowPaths(SmallMemory(), p);
  }

  lemma SmallTaken()
    ensures TakenAtStart(SMALL_ROOT + 1, SMALL_ROOT + 1, []) == SmallStart().used
    ensures SmallStart().reserved == SmallStart().used - {SMALL_ROOT} && SmallStart().roots == {SMALL_ROOT}
    ensures forall f :: f in SmallStart().used <==> 0 <= f <= SMALL_ROOT
  {}

  lemma SmallParts()
    ensures var s := SmallStart(); s.mem == SmallMemory() && s.refs[SMALL_ROOT] == 1 && |s.refs| == SMALL_ROOT + 1
  {}

  lemma SmallTop()
    ensures KernelTop(SmallMemory(), SMALL_ROOT)
    ensures forall i :: 0 <= i < USER_ENTRIES ==> !TopTable().es[i].present
  {
    SmallFrames();
    SmallTables(0);
    forall i | 0 <= i < ENTRIES
      ensures TopTable().es[i] == if i < USER_ENTRIES then EMPTY
        else Entry(i - USER_ENTRIES, true, true, false, false, false, false, false)
    {
      TopEntries(i);
    }
    hide SmallMemory, TopTable;
  }

  lemma SmallReaches(s: State, r: nat, p: seq<nat>, t: nat)
    requires s == SmallStart() && KernelReaches(s, r, p, t)
    ensures |p| == 1 && t == p[0] - USER_ENTRIES && t in s.reserved && IsTable(s.mem, t)
  {
    SmallTaken();
    SmallParts();
    SmallTables(0);
    hide SmallMemory, SmallStart, TakenAtStart;
    SmallPaths(p);
  }

  lemma SmallKernelHalf()
    ensures KernelHalf(SmallStart())
  {
    var s := SmallStart();
    SmallTaken();
    SmallParts();
    SmallTop();
    hide SmallMemory, SmallStart, TakenAtStart, KernelTop, KernelReaches;
    forall r, p, t | KernelReaches(s, r, p, t)
      ensures |p| == 1 && t == p[0] - USER_ENTRIES && t in s.reserved && IsTable(s.mem, t)
    {
      SmallReaches(s, r, p, t);
    }
    forall r, p | r in s.roots && KernelPath(p) && Ent(s.mem, r, p).Some? ensures !Ent(s.mem, r, p).value.cow {
      SmallPaths(p);
    }
  }

  lemma SmallBoots()
    ensures Boot(SmallStart(), SMALL_ROOT)
  {
    var s := SmallStart();
    SmallTaken();
    SmallParts();
    SmallFrames();
    SmallTables(0);
    SmallTop();
    TopEntries(RECURSIVE_ENTRY);
    SmallKernelHalf();
    hide SmallMemory, SmallStart, TakenAtStart, TopTable, KernelHalf;
  }

  /** So there is a state to start from. */
  method SmallestMachine() returns (k: CoW)
    ensures k.Valid() && AllViews(k.S()) == imap[]
  {
    SmallBoots();
    var none := FrameRange(0, 0);
    k := StartUp(SmallMemory(), seq(4, i => ALL_ONES), seq(SMALL_ROOT + 1, i => 1), SMALL_ROOT + 1, none, none, [],
                 SMALL_ROOT);
    BootSatisfiesInv(k.S(), SMALL_ROOT);
  }
}
