/**
 What the kernel does with frames of its own: taking free ones for its heap, its
 stacks and its tables, giving them back, and mapping pages of the kernel half, which
 all address spaces share. No process sees any of it.
 */
module KernelFrames {
  import opened PageTables
  import opened AddressSpaces
  import opened CowMap

  // ------------------------------------------------- frames that are not its own

  /** The frames of the address spaces, their contents and their counts stay. */
  ghost predicate UserKept(s: State, s': State) {
    && s'.roots == s.roots && |s'.mem| == |s.mem| && |s'.refs| == |s.refs|
    && s'.used - s'.reserved == s.used - s.reserved
    && (forall f :: f in s.used && f !in s.reserved && f < |s.mem| ==> s'.mem[f] == s.mem[f])
    && (forall f :: f in s.used && f !in s.reserved && f < |s.refs| ==> s'.refs[f] == s.refs[f])
  }

  /** The kernel changes its own frames, and its half of the address spaces stays sound. */
  ghost predicate KernelStep(s: State, s': State) {
    && UserKept(s, s')
    && 0 in s'.reserved && s'.reserved <= s'.used && (forall f :: f in s'.used ==> f < |s'.mem|)
    && KernelHalf(s')
  }

  lemma KeptFrame(s: State, s': State, f: nat)
    requires UserKept(s, s') && f in s.used && f !in s.reserved
    ensures f in s'.used && f !in s'.reserved
    ensures f < |s.mem| ==> s'.mem[f] == s.mem[f]
  {
    assert f in s.used - s.reserved;
    assert f in s'.used - s'.reserved;
  }

  lemma {:induction false} UserKeptEntries(s: State, s': State, r: nat, p: seq<nat>)
    requires RootsOk(s) && Typed(s) && UserKept(s, s') && r in s.roots && UserPath(p)
    ensures Walk(s'.mem, r, p) == Walk(s.mem, r, p)
    ensures p != [] ==> Ent(s'.mem, r, p) == Ent(s.mem, r, p)
    decreases |p|
  {
    if p != [] {
      var front := p[..|p| - 1];
      UserKeptEntries(s, s', r, front);
      if Walk(s.mem, r, front).Some? {
        assert Reaches(s, r, front, Walk(s.mem, r, front).value);
        KeptFrame(s, s', Walk(s.mem, r, front).value);
      }
    }
  }

  lemma UserKeptRoots(s: State, s': State)
    requires RootsOk(s) && KernelStep(s, s')
    ensures RootsOk(s')
  {
    forall r | r in s.roots ensures r in s'.used && r !in s'.reserved && s'.mem[r] == s.mem[r] {
      KeptFrame(s, s', r);
    }
    forall r, r' | r in s'.roots && r' in s'.roots ensures SameKernel(s'.mem, r, r') {
      assert SameKernel(s.mem, r, r');
    }
  }

  lemma UserKeptShape(s: State, s': State)
    requires Inv(s) && UserKept(s, s')
    ensures Typed(s') && Trees(s') && Private(s')
    ensures forall r, p, f :: Reaches(s', r, p, f) <==> Reaches(s, r, p, f)
    ensures forall r, p, e :: Selects(s', r, p, e) <==> Selects(s, r, p, e)
  {
    forall r: nat, p: seq<nat>, f: nat ensures Reaches(s', r, p, f) <==> Reaches(s, r, p, f) {
      if r in s.roots && UserPath(p) { UserKeptEntries(s, s', r, p); }
    }
    forall r: nat, p: seq<nat>, e ensures Selects(s', r, p, e) <==> Selects(s, r, p, e) {
      if r in s.roots && UserPath(p) { UserKeptEntries(s, s', r, p); }
    }
    forall r, p, f | Reaches(s', r, p, f) && p != []
      ensures f in s'.used && f !in s'.reserved && f !in s'.roots
      ensures if |p| < LEVELS then IsTable(s'.mem, f) else IsData(s'.mem, f)
    {
      assert Reaches(s, r, p, f);
      KeptFrame(s, s', f);
    }
  }

  lemma UserKeptCounts(s: State, s': State)
    requires Inv(s) && UserKept(s, s')
    requires forall r, p, f :: Reaches(s', r, p, f) <==> Reaches(s, r, p, f)
    ensures Counted(s')
  {
    forall f: nat ensures Paths(s', f) == Paths(s, f) {
      forall r: nat, p: seq<nat> ensures (r, p) in Paths(s', f) <==> (r, p) in Paths(s, f) {
        InPaths(s, f, r, p);
        InPaths(s', f, r, p);
      }
    }
    forall f | f in s'.used && f !in s'.reserved ensures f in s.used && f !in s.reserved {
      assert f in s'.used - s'.reserved;
      assert f in s.used - s.reserved;
    }
    forall r | r in s.roots ensures r in s.used && r !in s.reserved {}
  }

  /** Whatever the kernel does to its own frames, the invariant stays... */
  lemma KernelKeepsInv(s: State, s': State)
    requires Inv(s) && KernelStep(s, s')
    ensures Inv(s')
  {
    UserKeptRoots(s, s');
    UserKeptShape(s, s');
    UserKeptCounts(s, s');
    hide Inv, KernelStep, RootsOk, KernelHalf, Typed, Trees, Private, Counted;
    FlagParts(s);
    FewerEntries(s, s');
    InvFrom(s');
  }

  lemma InvFrom(s: State)
    requires RootsOk(s) && KernelHalf(s) && Typed(s) && Trees(s) && CowReadOnly(s) && CowDown(s) && Private(s)
    requires FlagsUp(s) && Counted(s)
    ensures Inv(s)
  {}

  /** ... and no process sees it. */
  lemma KernelKeepsViews(s: State, s': State)
    requires Inv(s) && KernelStep(s, s')
    ensures AllViews(s') == AllViews(s)
  {
    hide KernelHalf;
    forall r, q | r in s.roots && PagePath(q) ensures SameViewAt(s, s', r, q) {
      forall j | 1 <= j <= LEVELS ensures SameAccess(Ent(s.mem, r, q[..j]), Ent(s'.mem, r, q[..j])) {
        UserKeptEntries(s, s', r, q[..j]);
      }
      UserKeptEntries(s, s', r, q);
      if Walk(s.mem, r, q).Some? {
        assert Reaches(s, r, q, Walk(s.mem, r, q).value);
        KeptFrame(s, s', Walk(s.mem, r, q).value);
      }
      SameView(s, r, s', r, q);
    }
    SameViews(s, s');
  }

  lemma KernelSteps(s: State, s1: State, s2: State)
    requires KernelStep(s, s1) && KernelStep(s1, s2)
    ensures KernelStep(s, s2)
  {
    hide KernelHalf;
    forall f | f in s.used && f !in s.reserved ensures f in s1.used && f !in s1.reserved { KeptFrame(s, s1, f); }
  }

  lemma NoKernelStep(s: State)
    requires Inv(s)
    ensures KernelStep(s, s)
  {}

  // ------------------------------------------------------ taking and giving

  /** A free frame becomes the kernel's, with any contents and any count. */
  ghost predicate TakeStep(s: State, s': State, f: nat) {
    && f !in s.used && f < |s.mem| == |s.refs| == |s'.mem| == |s'.refs|
    && s' == s.(mem := s.mem[f := s'.mem[f]], refs := s.refs[f := s'.refs[f]], used := s.used + {f},
                reserved := s.reserved + {f})
  }

  /** The frame is a table of the kernel half. */
  ghost predicate IsKernelTable(s: State, f: nat) {
    exists r, p :: KernelReaches(s, r, p, f) && |p| < LEVELS
  }

  /** A frame of the kernel's becomes free. */
  ghost predicate GiveStep(s: State, s': State, f: nat) {
    && f in s.reserved && f < |s.refs| == |s'.refs|
    && s' == s.(refs := s.refs[f := s'.refs[f]], used := s.used - {f}, reserved := s.reserved - {f})
  }

  /** The upper half of every top-level table and the kernel's tables stay. */
  lemma KernelTablesStay(s: State, s': State)
    requires RootsOk(s) && KernelHalf(s) && s'.roots == s.roots && |s'.mem| == |s.mem| && s.reserved <= s'.reserved
    requires forall f :: f in s.reserved + s.roots ==> f < |s.mem| && s'.mem[f] == s.mem[f]
    ensures KernelHalf(s')
  {
    forall r | r in s.roots ensures HasKernelHalf(s, s', r) {
      assert KeepsUpper(s, s', r);
      TopKept(s, s', r, r);
    }
    KernelHalfFrom(s, s');
  }

  lemma TakeIsKernelStep(s: State, s': State, f: nat)
    requires Inv(s) && TakeStep(s, s', f)
    ensures KernelStep(s, s')
  {
    TakenApart(s, s', f);
    hide Inv, TakeStep, KernelHalf, RootsOk;
    InvParts(s);
    KernelTablesStay(s, s');
  }

  lemma TakenApart(s: State, s': State, f: nat)
    requires RootsOk(s) && TakeStep(s, s', f)
    ensures UserKept(s, s') && 0 in s'.reserved && s'.reserved <= s'.used && (forall g :: g in s'.used ==> g < |s'.mem|)
    ensures forall g :: g in s.reserved + s.roots ==> g < |s.mem| && s'.mem[g] == s.mem[g]
    ensures |s'.mem| == |s.mem| && s'.roots == s.roots && s.reserved <= s'.reserved
  {
    assert s'.used - s'.reserved == s.used - s.reserved;
  }

  /** Giving a frame back is sound exactly if it is no table of the kernel half. */
  lemma GiveIsKernelStepIff(s: State, s': State, f: nat)
    requires Inv(s) && GiveStep(s, s', f)
    ensures KernelStep(s, s') <==> f != 0 && !IsKernelTable(s, f)
  {
    assert s'.mem == s.mem && s'.roots == s.roots;
    forall r, p, t ensures KernelReaches(s', r, p, t) <==> KernelReaches(s, r, p, t) {}
    if f != 0 && !IsKernelTable(s, f) {
      forall r, p, t | KernelReaches(s', r, p, t) && |p| < LEVELS ensures t in s'.reserved && IsTable(s'.mem, t) {
        assert KernelReaches(s, r, p, t);
      }
      assert s'.used - s'.reserved == s.used - s.reserved;
    }
    if IsKernelTable(s, f) {
      var r, p :| KernelReaches(s, r, p, f) && |p| < LEVELS;
      assert KernelReaches(s', r, p, f);
    }
  }

  // ------------------------------------------------ entries of kernel tables

  /** The entry e goes to index i of the kernel table at path p; `taken` tells whether its
      frame was free. */
  datatype KernelPut = KernelPut(p: seq<nat>, i: nat, table: nat, e: Entry, taken: bool)
  {
    function Path(): seq<nat> { p + [i] }

    function NewFrames(): set<nat> { if taken then {e.frame} else {} }

    function Result(): Option<Entry> { if e.present then Some(e) else None }
  }

  /** The path reaches a kernel table, in every address space. */
  ghost predicate IsKernelPath(s: State, p: seq<nat>, t: nat) {
    |p| < LEVELS && exists r :: KernelReaches(s, r, p, t)
  }

  /** A fresh table where there was none, or any change of a page's entry. */
  ghost predicate KernelPutStep(s: State, s': State, c: KernelPut) {
    && IsKernelPath(s, c.p, c.table) && IsTable(s.mem, c.table) && c.i < ENTRIES && !c.e.cow
    && |s'.mem| == |s.mem| == |s.refs| == |s'.refs|
    && (c.taken ==> c.e.frame !in s.used && c.e.frame < |s.mem|)
    && (|c.p| + 1 < LEVELS ==>
      c.taken && c.e.present && !s.mem[c.table].es[c.i].present && s'.mem[c.e.frame] == EmptyTable())
    && s'.mem[c.table] == Table(s.mem[c.table].es[c.i := c.e])
    && (forall f :: 0 <= f < |s.mem| && f != c.table && f !in c.NewFrames() ==> s'.mem[f] == s.mem[f])
    && (forall f :: 0 <= f < |s.refs| && f !in c.NewFrames() ==> s'.refs[f] == s.refs[f])
    && s'.used == s.used + c.NewFrames() && s'.reserved == s.reserved + c.NewFrames() && s'.roots == s.roots
  }

  ghost function KernelPuts(s: State, s': State): iset<KernelPut> {
    iset c | RootsOk(s) && KernelHalf(s) && KernelPutStep(s, s', c)
  }

  lemma KernelOwner(s: State, c: KernelPut, r: nat, p: seq<nat>)
    requires RootsOk(s) && KernelHalf(s) && IsKernelPath(s, c.p, c.table) && KernelReaches(s, r, p, c.table)
    requires |p| < LEVELS
    ensures p == c.p
  {
    var r0 :| KernelReaches(s, r0, c.p, c.table);
    KernelIsShared(s, r0, r, c.p);
    assert KernelReaches(s, r, c.p, c.table);
  }

  lemma KernelPutApart(s: State, s': State, c: KernelPut)
    requires c in KernelPuts(s, s')
    ensures c.table in s.reserved && c.table !in c.NewFrames()
    ensures forall f :: f in s.used && f < |s.mem| && f != c.table ==> s'.mem[f] == s.mem[f]
  {
    var r0 :| KernelReaches(s, r0, c.p, c.table);
  }

  /** In every address space the path of the entry changes, and no other. */
  lemma {:induction false} KernelPutEntries(s: State, s': State, c: KernelPut, r: nat, p: seq<nat>)
    requires c in KernelPuts(s, s') && r in s.roots && KernelPath(p)
    ensures Ent(s'.mem, r, p) == if p == c.Path() then c.Result() else Ent(s.mem, r, p)
    ensures p != c.Path() ==> Walk(s'.mem, r, p) == Walk(s.mem, r, p)
    decreases |p|
  {
    hide KernelPuts;
    var front, i := p[..|p| - 1], p[|p| - 1];
    assert p == front + [i];
    assert p == c.Path() <==> front == c.p && i == c.i by { assert c.Path()[..|c.p|] == c.p; }
    if front == [] {
      KernelPutTop(s, s', c, r, i);
    } else {
      KernelPutEntries(s, s', c, r, front);
      KernelPutLookup(s, s', c, r, front, i);
    }
  }

  lemma KernelPutTop(s: State, s': State, c: KernelPut, r: nat, i: nat)
    requires c in KernelPuts(s, s') && r in s.roots
    ensures c.p != [] && Ent(s'.mem, r, [] + [i]) == Ent(s.mem, r, [] + [i])
  {
    WalkSnoc(s.mem, r, [], i);
    WalkSnoc(s'.mem, r, [], i);
    KernelPutApart(s, s', c);
  }

  lemma KernelPutLookup(s: State, s': State, c: KernelPut, r: nat, front: seq<nat>, i: nat)
    requires c in KernelPuts(s, s') && r in s.roots && KernelPath(front) && |front| < LEVELS
    requires Ent(s'.mem, r, front) == if front == c.Path() then c.Result() else Ent(s.mem, r, front)
    requires front != c.Path() ==> Walk(s'.mem, r, front) == Walk(s.mem, r, front)
    ensures Ent(s'.mem, r, front + [i]) ==
      if front == c.p && i == c.i then c.Result() else Ent(s.mem, r, front + [i])
  {
    hide KernelPuts;
    WalkSnoc(s.mem, r, front, i);
    WalkSnoc(s'.mem, r, front, i);
    if front == c.Path() {
      assert |front| == |c.p| + 1;
      NothingYet(s, s', c, r, i);
    } else if Walk(s.mem, r, front).Some? {
      var u := Walk(s.mem, r, front).value;
      assert KernelReaches(s, r, front, u);
      PutBelow(s, s', c, r, front, u);
    } else if front == c.p {
      PutIsReached(s, s', c, r);
    }
  }

  lemma PutIsReached(s: State, s': State, c: KernelPut, r: nat)
    requires c in KernelPuts(s, s') && r in s.roots
    ensures KernelReaches(s, r, c.p, c.table)
  {
    var r0 :| KernelReaches(s, r0, c.p, c.table);
    KernelIsShared(s, r0, r, c.p);
  }

  /** What changes in the table that a path reaches. */
  lemma PutBelow(s: State, s': State, c: KernelPut, r: nat, front: seq<nat>, u: nat)
    requires c in KernelPuts(s, s') && KernelReaches(s, r, front, u) && |front| < LEVELS
    ensures IsTable(s.mem, u) && c.i < ENTRIES
    ensures front == c.p ==> u == c.table && s'.mem[u] == Table(s.mem[u].es[c.i := c.e])
    ensures front != c.p ==> s'.mem[u] == s.mem[u]
    ensures |s'.mem| == |s.mem|
  {
    KernelPutApart(s, s', c);
    if u == c.table { KernelOwner(s, c, r, front); }
    if front == c.p { ReachedAlike(s, c, r, u); }
  }

  /** Nothing was below a table that is new, and nothing is below it yet. */
  lemma NothingYet(s: State, s': State, c: KernelPut, r: nat, i: nat)
    requires c in KernelPuts(s, s') && r in s.roots && |c.p| + 1 < LEVELS
    ensures Walk(s.mem, r, c.Path()).None? && Lookup(s'.mem, c.e.frame, i).None? && c.e.present
  {
    NotThereBefore(s, c, r);
  }

  lemma ReachedAlike(s: State, c: KernelPut, r: nat, u: nat)
    requires RootsOk(s) && IsKernelPath(s, c.p, c.table) && KernelReaches(s, r, c.p, u)
    ensures u == c.table
  {
    var r0 :| KernelReaches(s, r0, c.p, c.table);
    KernelIsShared(s, r0, r, c.p);
  }

  lemma NotThereBefore(s: State, c: KernelPut, r: nat)
    requires RootsOk(s) && IsKernelPath(s, c.p, c.table) && r in s.roots && IsTable(s.mem, c.table) && c.i < ENTRIES
    requires !s.mem[c.table].es[c.i].present
    ensures Walk(s.mem, r, c.Path()).None?
  {
    var r0 :| KernelReaches(s, r0, c.p, c.table);
    KernelIsShared(s, r0, r, c.p);
    WalkSnoc(s.mem, r, c.p, c.i);
  }

  lemma KernelPutReaches(s: State, s': State, c: KernelPut, r: nat, p: seq<nat>, t: nat)
    requires c in KernelPuts(s, s') && KernelReaches(s', r, p, t) && |p| < LEVELS
    ensures t in s'.reserved && IsTable(s'.mem, t)
    ensures if p == c.Path() then t == c.e.frame && c.taken else KernelReaches(s, r, p, t) && t in s.used
  {
    KernelPutEntries(s, s', c, r, p);
    KernelPutApart(s, s', c);
    if p == c.Path() {
      assert |p| == |c.p| + 1;
    } else {
      assert KernelReaches(s, r, p, t);
    }
  }

  /** Mapping, remapping and unmapping pages of the kernel half is a step of the kernel. */
  lemma KernelPutIsStep(s: State, s': State, c: KernelPut)
    requires Inv(s) && KernelPutStep(s, s', c)
    ensures KernelStep(s, s')
  {
    assert c in KernelPuts(s, s') by { InvParts(s); }
    KernelPutFrames(s, s', c);
    forall r | r in s.roots ensures KernelTop(s'.mem, r) { KernelPutTops(s, s', c, r); }
    hide Inv, KernelPuts, KernelPutStep;
    forall r, p, t | KernelReaches(s', r, p, t) && |p| < LEVELS ensures t in s'.reserved && IsTable(s'.mem, t) {
      KernelPutReaches(s, s', c, r, p, t);
    }
    forall r, p, p', t | KernelReaches(s', r, p, t) && KernelReaches(s', r, p', t) && |p| < LEVELS && |p'| < LEVELS
      ensures p == p'
    {
      KernelPutReaches(s, s', c, r, p, t);
      KernelPutReaches(s, s', c, r, p', t);
      NewIsNew(s, s', c);
      InvParts(s);
    }
    forall r, p | r in s'.roots && KernelPath(p) && Ent(s'.mem, r, p).Some? ensures !Ent(s'.mem, r, p).value.cow {
      KernelPutEntries(s, s', c, r, p);
      InvParts(s);
      NewIsNew(s, s', c);
    }
  }

  lemma NewIsNew(s: State, s': State, c: KernelPut)
    requires KernelPutStep(s, s', c)
    ensures (c.taken ==> c.e.frame !in s.used) && !c.e.cow
  {}

  lemma KernelPutTops(s: State, s': State, c: KernelPut, r: nat)
    requires c in KernelPuts(s, s') && r in s.roots
    ensures KernelTop(s'.mem, r)
  {
    KernelPutApart(s, s', c);
    assert KernelTop(s.mem, r);
  }

  lemma KernelPutFrames(s: State, s': State, c: KernelPut)
    requires c in KernelPuts(s, s')
    ensures UserKept(s, s')
    ensures 0 in s'.reserved && s'.reserved <= s'.used && (forall f :: f in s'.used ==> f < |s'.mem|)
  {
    KernelPutApart(s, s', c);
    assert s'.used - s'.reserved == s.used - s.reserved;
  }
}
