/**
 What `deallocateUserMemory` does to the state: the user half of one top-level
 table is emptied and every frame below it loses one reference.  The top-level
 table itself stays allocated.
 */
module CowExit {
  import opened PageTables
  import opened AddressSpaces

  /** The first n entries zeroed where present. */
  function Cleared(es: seq<Entry>, n: nat): (r: seq<Entry>)
    ensures |r| == |es|
  {
    seq(|es|, i requires 0 <= i < |es| => if i < n && es[i].present then EMPTY else es[i])
  }

  ghost predicate ExitStep(s: State, s': State, r: nat) {
    && r in s.roots && IsTable(s.mem, r)
    && s'.mem == s.mem[r := Table(Cleared(s.mem[r].es, USER_ENTRIES))]
    && s'.roots == s.roots && s'.reserved == s.reserved && |s'.refs| == |s.refs|
    && (forall f :: f in s'.used <==> f in s.used && !(Below(s, r, LEVELS, f) && f < |s.refs| && s.refs[f] == 1))
    && (forall f :: f in s'.used && f < |s.refs| ==>
          if Below(s, r, LEVELS, f) then s'.refs[f] + 1 == s.refs[f] else s'.refs[f] == s.refs[f])
  }

  ghost function Exits(s: State, s': State): iset<nat> {
    iset r: nat | RootsOk(s) && Typed(s) && ExitStep(s, s', r)
  }

  /** Only the exiting address space changes, and it maps nothing any more. */
  lemma {:induction false} ExitEntries(s: State, s': State, gone: nat, r: nat, p: seq<nat>)
    requires gone in Exits(s, s')
    requires r in s.roots && UserPath(p) && p != []
    ensures Walk(s'.mem, r, p) == if r == gone then None else Walk(s.mem, r, p)
    ensures Ent(s'.mem, r, p) == if r == gone then None else Ent(s.mem, r, p)
    decreases |p|
  {
    var front, i := p[..|p| - 1], p[|p| - 1];
    assert p == front + [i];
    WalkSnoc(s.mem, r, front, i);
    WalkSnoc(s'.mem, r, front, i);
    if front == [] {
      assert p[0] == i;
    } else {
      ExitEntries(s, s', gone, r, front);
      if r != gone && Walk(s.mem, r, front).Some? {
        assert Reaches(s, r, front, Walk(s.mem, r, front).value);
      }
    }
  }

  lemma ExitReaches(s: State, s': State, gone: nat, r: nat, p: seq<nat>, f: nat)
    requires gone in Exits(s, s') && p != []
    ensures Reaches(s', r, p, f) <==> r != gone && Reaches(s, r, p, f)
  {
    if r in s.roots && UserPath(p) { ExitEntries(s, s', gone, r, p); }
  }

  lemma ExitSelects(s: State, s': State, gone: nat, r: nat, p: seq<nat>, e: Entry)
    requires gone in Exits(s, s') && p != []
    ensures Selects(s', r, p, e) <==> r != gone && Selects(s, r, p, e)
  {
    if r in s.roots && UserPath(p) { ExitEntries(s, s', gone, r, p); }
  }

  /** A frame below the exiting root that another address space reaches is kept. */
  lemma KeptByOthers(s: State, gone: nat, r: nat, p: seq<nat>, f: nat)
    requires Typed(s) && Counted(s) && gone in s.roots && r != gone && Reaches(s, r, p, f) && p != []
    requires Below(s, gone, LEVELS, f)
    ensures f < |s.refs| && s.refs[f] > 1
  {
    var p0: seq<nat> :| Reaches(s, gone, p0, f) && p0 != [] && |p0| <= LEVELS;
    TwoPaths(s, f, r, p, gone, p0);
  }

  lemma ExitRoots(s: State, s': State, gone: nat)
    requires RootsOk(s) && KernelHalf(s) && Typed(s) && ExitStep(s, s', gone)
    ensures RootsOk(s') && KernelHalf(s')
  {
    forall f | f in s.reserved + s.roots ensures f in s'.used { BelowIsUser(s, gone, LEVELS, f); }
    forall r | r in s.roots ensures KeepsUpper(s, s', r) {}
    FramesInRange(s);
    hide RootsOk, KernelHalf, KeepsUpper;
    RootsKept(s, s');
  }

  lemma ExitTyped(s: State, s': State, gone: nat)
    requires Inv(s) && ExitStep(s, s', gone)
    ensures Typed(s') && Trees(s')
  {
    assert gone in Exits(s, s');
    forall r: nat, p: seq<nat>, f: nat | Reaches(s', r, p, f) && p != []
      ensures r != gone && Reaches(s, r, p, f)
      ensures f in s'.used && f !in s'.reserved && f !in s'.roots
      ensures if |p| < LEVELS then IsTable(s'.mem, f) else IsData(s'.mem, f)
    {
      ExitReaches(s, s', gone, r, p, f);
      if Below(s, gone, LEVELS, f) { KeptByOthers(s, gone, r, p, f); }
    }
  }

  lemma ExitFlags(s: State, s': State, gone: nat)
    requires Inv(s) && ExitStep(s, s', gone)
    ensures CowReadOnly(s') && CowDown(s') && FlagsUp(s')
  {
    assert gone in Exits(s, s');
    hide Inv, ExitStep, CowReadOnly, CowDown, FlagsUp, Exits;
    FlagParts(s);
    forall r: nat, p: seq<nat>, e ensures Selects(s', r, p, e) ==> Selects(s, r, p, e) {
      if Selects(s', r, p, e) { ExitSelects(s, s', gone, r, p, e); }
    }
    FewerEntries(s, s');
  }

  lemma ExitPrivate(s: State, s': State, gone: nat)
    requires Inv(s) && ExitStep(s, s', gone)
    ensures Private(s')
  {
    assert gone in Exits(s, s');
    ExitTyped(s, s', gone);
    forall r: nat, p: seq<nat>, e, r': nat, p': seq<nat> | Selects(s', r, p, e) && !e.cow
      && Reaches(s', r', p', e.frame)
      ensures r' == r && p' == p
    {
      ExitSelects(s, s', gone, r, p, e);
      assert Reaches(s', r, p, e.frame);
      assert p' != [];
      ExitReaches(s, s', gone, r', p', e.frame);
    }
  }

  lemma ExitMember(s: State, s': State, gone: nat, f: nat, r: nat, p: seq<nat>)
    requires gone in Exits(s, s')
    ensures (r, p) in Paths(s', f) <==> r != gone && (r, p) in Paths(s, f)
  {
    InPaths(s, f, r, p);
    InPaths(s', f, r, p);
    if p != [] { ExitReaches(s, s', gone, r, p, f); }
  }

  lemma ExitCountBelow(s: State, s': State, gone: nat, f: nat)
    requires gone in Exits(s, s') && Trees(s) && Below(s, gone, LEVELS, f)
    ensures |Paths(s', f)| == |Paths(s, f)| - 1
  {
    var p0: seq<nat> :| Reaches(s, gone, p0, f) && p0 != [] && |p0| <= LEVELS;
    InPaths(s, f, gone, p0);
    forall r: nat, p: seq<nat> ensures (r, p) in Paths(s', f) <==> (r, p) in Paths(s, f) - {(gone, p0)} {
      ExitMember(s, s', gone, f, r, p);
      InPaths(s, f, r, p);
    }
    assert Paths(s', f) == Paths(s, f) - {(gone, p0)};
  }

  lemma ExitCountElsewhere(s: State, s': State, gone: nat, f: nat)
    requires gone in Exits(s, s') && !Below(s, gone, LEVELS, f)
    ensures Paths(s', f) == Paths(s, f)
  {
    forall r: nat, p: seq<nat> ensures (r, p) in Paths(s', f) <==> (r, p) in Paths(s, f) {
      ExitMember(s, s', gone, f, r, p);
      InPaths(s, f, r, p);
    }
  }

  lemma ExitCounted(s: State, s': State, gone: nat)
    requires Inv(s) && ExitStep(s, s', gone)
    ensures Counted(s')
  {
    assert gone in Exits(s, s');
    forall f: nat | f in s'.used && f !in s'.reserved
      ensures f !in s'.roots ==> f < |s'.refs| && s'.refs[f] == |Paths(s', f)| && s'.refs[f] > 0
      ensures f in s'.roots ==> f < |s'.refs| && s'.refs[f] == 1
    {
      BelowIsUser(s, gone, LEVELS, f);
      if Below(s, gone, LEVELS, f) {
        ExitCountBelow(s, s', gone, f);
      } else {
        ExitCountElsewhere(s, s', gone, f);
      }
    }
  }

  /** Exit keeps the invariant; a frame is released exactly when its last path goes. */
  lemma ExitKeepsInv(s: State, s': State, gone: nat)
    requires Inv(s) && ExitStep(s, s', gone)
    ensures Inv(s')
  {
    ExitRoots(s, s', gone);
    ExitTyped(s, s', gone);
    ExitFlags(s, s', gone);
    ExitPrivate(s, s', gone);
    ExitCounted(s, s', gone);
  }

  /** The eager exit: the process's pages disappear and nobody else's change. */
  ghost function Removed(v: Views, gone: nat): Views {
    imap r, q | (r, q) in v && r != gone :: (r, q) := v[(r, q)]
  }

  lemma ExitView(s: State, s': State, gone: nat, r: nat, q: seq<nat>)
    requires gone in Exits(s, s') && r in s.roots && PagePath(q)
    ensures Mapped(s', r, q) <==> r != gone && Mapped(s, r, q)
    ensures Mapped(s', r, q) ==> View(s', r, q) == View(s, r, q)
  {
    ExitEntries(s, s', gone, r, q);
    if r != gone {
      forall j | 1 <= j <= LEVELS ensures SameAccess(Ent(s.mem, r, q[..j]), Ent(s'.mem, r, q[..j])) {
        ExitEntries(s, s', gone, r, q[..j]);
      }
      if Walk(s.mem, r, q).Some? { assert Reaches(s, r, q, Walk(s.mem, r, q).value); }
      SameView(s, r, s', r, q);
    }
  }

  lemma RemovedAt(v: Views, gone: nat, r: nat, q: seq<nat>)
    ensures (r, q) in Removed(v, gone) <==> (r, q) in v && r != gone
    ensures (r, q) in Removed(v, gone) ==> Removed(v, gone)[(r, q)] == v[(r, q)]
  {}

  lemma RemovedView(s: State, s': State, gone: nat, r: nat, q: seq<nat>)
    requires Mapped(s', r, q) <==> r != gone && Mapped(s, r, q)
    requires Mapped(s', r, q) ==> View(s', r, q) == View(s, r, q)
    ensures Agree(AllViews(s'), Removed(AllViews(s), gone), r, q)
  {
    InViews(s, r, q);
    InViews(s', r, q);
    RemovedAt(AllViews(s), gone, r, q);
  }

  lemma ExitRemovesViews(s: State, s': State, gone: nat)
    requires Inv(s) && ExitStep(s, s', gone)
    ensures AllViews(s') == Removed(AllViews(s), gone)
  {
    assert gone in Exits(s, s');
    forall r: nat, q: seq<nat> ensures Agree(AllViews(s'), Removed(AllViews(s), gone), r, q) {
      if r in s.roots && PagePath(q) { ExitView(s, s', gone, r, q); }
      RemovedView(s, s', gone, r, q);
    }
    ViewsExtensional(AllViews(s'), Removed(AllViews(s), gone));
  }
}
