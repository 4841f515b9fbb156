/**
 What `clonePageTable` does to the state: every present entry below the parent's
 root becomes copy-on-write, every frame below it gains one reference, and only
 the top-level table is copied.
 */
module CowFork {
  import opened PageTables
  import opened AddressSpaces

  /** The first n entries of a table marked, if present. */
  function Marked(es: seq<Entry>, n: nat): (r: seq<Entry>)
    ensures |r| == |es|
  {
    seq(|es|, i requires 0 <= i < |es| => if i < n && es[i].present then es[i].Mark() else es[i])
  }

  ghost predicate MarkedMemory(s: State, mem': seq<Frame>, parent: nat, child: nat) {
    && |mem'| == |s.mem| && IsTable(s.mem, parent) && child < |s.mem|
    && (forall f :: 0 <= f < |mem'| && f != child ==>
          mem'[f] == if f == parent then Table(Marked(s.mem[f].es, USER_ENTRIES))
                     else if Below(s, parent, LEVELS - 1, f) && s.mem[f].Table? then Table(Marked(s.mem[f].es, ENTRIES))
                     else s.mem[f])
    && IsTable(mem', parent)
    && mem'[child] == Table(mem'[parent].es[RECURSIVE_ENTRY := mem'[parent].es[RECURSIVE_ENTRY].(frame := child)])
  }

  ghost predicate ForkStep(s: State, s': State, parent: nat, child: nat) {
    && parent in s.roots && child !in s.used
    && MarkedMemory(s, s'.mem, parent, child)
    && s'.roots == s.roots + {child} && s'.used == s.used + {child} && s'.reserved == s.reserved
    && |s'.refs| == |s.refs|
    && (forall f :: f in s'.used && f < |s.refs| ==>
          s'.refs[f] == if f == child then 1 else if Below(s, parent, LEVELS, f) then s.refs[f] + 1 else s.refs[f])
  }

  /** The forks that take s to s'. */
  ghost function Forks(s: State, s': State): iset<(nat, nat)> {
    iset parent, child | RootsOk(s) && Typed(s) && Private(s) && ForkStep(s, s', parent, child) :: (parent, child)
  }

  function MarkIf(marked: bool, e: Option<Entry>): Option<Entry> {
    match e case None => None case Some(x) => Some(if marked then x.Mark() else x)
  }

  /** Marking leaves every walk alone and changes entries of the parent only:
      entries shared with another address space are copy-on-write already. */
  lemma {:induction false} ForkEntries(s: State, s': State, parent: nat, child: nat, r: nat, p: seq<nat>)
    requires (parent, child) in Forks(s, s')
    requires r in s.roots && UserPath(p)
    ensures Walk(s'.mem, r, p) == Walk(s.mem, r, p)
    ensures p != [] ==> Ent(s'.mem, r, p) == MarkIf(r == parent, Ent(s.mem, r, p))
    decreases |p|
  {
    if p != [] {
      var front, i := p[..|p| - 1], p[|p| - 1];
      assert p == front + [i];
      ForkEntries(s, s', parent, child, r, front);
      if Walk(s.mem, r, front).Some? {
        ForkLookup(s, s', parent, child, r, front, i, Walk(s.mem, r, front).value);
      }
    }
  }

  lemma ForkLookup(s: State, s': State, parent: nat, child: nat, r: nat, front: seq<nat>, i: nat, u: nat)
    requires (parent, child) in Forks(s, s')
    requires UserPath(front + [i]) && Reaches(s, r, front, u)
    ensures Lookup(s'.mem, u, i) == MarkIf(r == parent, Lookup(s.mem, u, i))
  {
    assert u in s.used && u != child;
    if r == parent && front != [] {
      assert Below(s, parent, LEVELS - 1, u);
    }
    if u == parent {
      assert front == [];
      assert (front + [i])[0] == i;
    } else if Below(s, parent, LEVELS - 1, u) {
      var p :| Reaches(s, parent, p, u) && p != [] && |p| <= LEVELS - 1;
      if Lookup(s.mem, u, i).Some? {
        SharedIsCow(s, r, front, parent, p, u, i);
      }
    }
  }

  /** A table that two address spaces share has copy-on-write entries only. */
  lemma SharedIsCow(s: State, r: nat, p: seq<nat>, r': nat, p': seq<nat>, u: nat, i: nat)
    requires Private(s) && Reaches(s, r, p, u) && Reaches(s, r', p', u) && |p'| < LEVELS && p' != []
    requires UserPath(p + [i]) && Lookup(s.mem, u, i).Some?
    ensures r == r' || Lookup(s.mem, u, i).value.cow
  {
    var e := Lookup(s.mem, u, i).value;
    WalkSnoc(s.mem, r, p, i);
    WalkSnoc(s.mem, r', p', i);
    assert Selects(s, r, p + [i], e);
    assert (p' + [i])[0] == p'[0];
    assert Selects(s, r', p' + [i], e);
    assert Reaches(s, r', p' + [i], e.frame);
  }

  /** The child's walks are the parent's. */
  lemma ChildEntries(s: State, s': State, parent: nat, child: nat, p: seq<nat>)
    requires (parent, child) in Forks(s, s')
    requires UserPath(p) && p != []
    ensures Walk(s'.mem, child, p) == Walk(s.mem, parent, p)
    ensures Ent(s'.mem, child, p) == MarkIf(true, Ent(s.mem, parent, p))
  {
    ForkEntries(s, s', parent, child, parent, p);
    SameTop(s'.mem, parent, child, p);
  }

  /** Two tables that agree on the user half give the same walks. */
  lemma {:induction false} SameTop(mem: seq<Frame>, t: nat, t': nat, p: seq<nat>)
    requires forall i :: 0 <= i < USER_ENTRIES ==> Lookup(mem, t, i) == Lookup(mem, t', i)
    requires UserPath(p) && p != []
    ensures Walk(mem, t', p) == Walk(mem, t, p)
    ensures Ent(mem, t', p) == Ent(mem, t, p)
    decreases |p|
  {
    if |p| > 1 {
      SameTop(mem, t, t', p[..|p| - 1]);
    } else {
      assert p == [] + [p[0]];
      WalkSnoc(mem, t, [], p[0]);
      WalkSnoc(mem, t', [], p[0]);
    }
  }

  // ------------------------------------------------- the invariant is kept

  /** The parent path behind a path of any address space after the fork. */
  function Origin(parent: nat, child: nat, r: nat): nat {
    if r == child then parent else r
  }

  /** What a path of s' reaches, told by s. */
  lemma ForkReaches(s: State, s': State, parent: nat, child: nat, r: nat, p: seq<nat>, f: nat)
    requires (parent, child) in Forks(s, s') && p != []
    ensures Reaches(s', r, p, f) <==> (r in s.roots || r == child) && Reaches(s, Origin(parent, child, r), p, f)
    ensures Reaches(s', r, p, f) ==> f != child
  {
    if (r in s.roots || r == child) && UserPath(p) {
      if r == child {
        ChildEntries(s, s', parent, child, p);
      } else {
        ForkEntries(s, s', parent, child, r, p);
      }
    }
    if Reaches(s', r, p, f) {
      assert Reaches(s, Origin(parent, child, r), p, f);
    }
  }

  /** What a path of s' selects, told by s. */
  lemma ForkSelects(s: State, s': State, parent: nat, child: nat, r: nat, p: seq<nat>, e': Entry) returns (e: Entry)
    requires (parent, child) in Forks(s, s') && Selects(s', r, p, e')
    ensures Selects(s, Origin(parent, child, r), p, e)
    ensures e' == if r == child || r == parent then e.Mark() else e
  {
    if r == child {
      ChildEntries(s, s', parent, child, p);
    } else {
      ForkEntries(s, s', parent, child, r, p);
    }
    e := Ent(s.mem, Origin(parent, child, r), p).value;
  }

  lemma ForkRootTable(s: State, s': State, parent: nat, child: nat, r: nat)
    requires RootsOk(s) && Typed(s) && ForkStep(s, s', parent, child) && r in s.roots
    ensures KeepsUpper(s, s', r)
  {
    BelowIsUser(s, parent, LEVELS - 1, r);
  }

  lemma ForkReserved(s: State, s': State, parent: nat, child: nat)
    requires RootsOk(s) && Typed(s) && ForkStep(s, s', parent, child)
    ensures forall f :: f in s.reserved ==> s'.mem[f] == s.mem[f]
    ensures |s'.mem| == |s.mem| == |s'.refs| && s'.roots == s.roots + {child} && s'.reserved == s.reserved
    ensures s'.used == s.used + {child} && child < |s.mem| && child !in s.used
    ensures IsTable(s'.mem, child) && s'.mem[child].es[RECURSIVE_ENTRY].present
      && s'.mem[child].es[RECURSIVE_ENTRY].frame == child
    ensures NewUpper(s, s', parent, child)
  {
    forall f | f in s.reserved ensures s'.mem[f] == s.mem[f] { BelowIsUser(s, parent, LEVELS - 1, f); }
    ForkRootTable(s, s', parent, child, parent);
  }

  lemma ForkRoots(s: State, s': State, parent: nat, child: nat)
    requires RootsOk(s) && KernelHalf(s) && Typed(s) && ForkStep(s, s', parent, child)
    ensures RootsOk(s') && KernelHalf(s')
  {
    assert parent in s.roots;
    hide RootsOk, KernelHalf, Typed, ForkStep, KeepsUpper, NewUpper;
    forall r | r in s.roots ensures KeepsUpper(s, s', r) { ForkRootTable(s, s', parent, child, r); }
    FramesInRange(s);
    ForkReserved(s, s', parent, child);
    RootsGrow(s, s', parent, child);
  }

  lemma ForkTyped(s: State, s': State, parent: nat, child: nat)
    requires Inv(s) && ForkStep(s, s', parent, child)
    ensures Typed(s')
  {
    assert (parent, child) in Forks(s, s');
    forall r: nat, p: seq<nat>, f: nat | Reaches(s', r, p, f) && p != []
      ensures f in s'.used && f !in s'.reserved && f !in s'.roots
      ensures if |p| < LEVELS then IsTable(s'.mem, f) else IsData(s'.mem, f)
    {
      ForkReaches(s, s', parent, child, r, p, f);
      assert Reaches(s, Origin(parent, child, r), p, f);
    }
  }

  lemma ForkTrees(s: State, s': State, parent: nat, child: nat)
    requires Inv(s) && ForkStep(s, s', parent, child)
    ensures Trees(s')
  {
    assert (parent, child) in Forks(s, s');
    ForkTyped(s, s', parent, child);
    forall r: nat, p: seq<nat>, p': seq<nat>, f: nat | Reaches(s', r, p, f) && Reaches(s', r, p', f) ensures p == p' {
      if p != [] && p' != [] {
        ForkReaches(s, s', parent, child, r, p, f);
        ForkReaches(s, s', parent, child, r, p', f);
        assert Reaches(s, Origin(parent, child, r), p, f) && Reaches(s, Origin(parent, child, r), p', f);
      }
    }
  }

  lemma ForkFlags(s: State, s': State, parent: nat, child: nat)
    requires Inv(s) && ForkStep(s, s', parent, child)
    ensures CowReadOnly(s') && CowDown(s') && FlagsUp(s')
  {
    assert (parent, child) in Forks(s, s');
    forall r: nat, p: seq<nat>, e | Selects(s', r, p, e)
      ensures (e.cow ==> !e.writable) && (|p| < LEVELS ==> e.PassesOn())
    {
      var e0 := ForkSelects(s, s', parent, child, r, p, e);
    }
    forall r: nat, p: seq<nat>, e, i: nat, e' | Selects(s', r, p, e) && Selects(s', r, p + [i], e')
      ensures (e.cow ==> e'.cow) && (e'.user ==> e.user)
    {
      var e0 := ForkSelects(s, s', parent, child, r, p, e);
      var e1 := ForkSelects(s, s', parent, child, r, p + [i], e');
    }
  }

  lemma ForkPrivate(s: State, s': State, parent: nat, child: nat)
    requires Inv(s) && ForkStep(s, s', parent, child)
    ensures Private(s')
  {
    assert (parent, child) in Forks(s, s');
    ForkTyped(s, s', parent, child);
    forall r: nat, p: seq<nat>, e, r': nat, p': seq<nat> | Selects(s', r, p, e) && !e.cow
      && Reaches(s', r', p', e.frame)
      ensures r' == r && p' == p
    {
      assert Reaches(s', r, p, e.frame);
      var e0 := ForkSelects(s, s', parent, child, r, p, e);
      assert p' != [];
      ForkReaches(s, s', parent, child, r', p', e.frame);
    }
  }

  lemma ForkCountBelow(s: State, s': State, parent: nat, child: nat, f: nat)
    requires (parent, child) in Forks(s, s') && Trees(s) && Below(s, parent, LEVELS, f)
    ensures |Paths(s', f)| == |Paths(s, f)| + 1
  {
    var p0: seq<nat> :| Reaches(s, parent, p0, f) && p0 != [] && |p0| <= LEVELS;
    forall r: nat, p: seq<nat> ensures (r, p) in Paths(s', f) <==> (r, p) in Paths(s, f) + {(child, p0)} {
      ForkMember(s, s', parent, child, f, r, p);
      assert Reaches(s, parent, p, f) ==> p == p0;
    }
    assert Paths(s', f) == Paths(s, f) + {(child, p0)};
    ForkMember(s, s', parent, child, f, child, p0);
  }

  lemma ForkCountElsewhere(s: State, s': State, parent: nat, child: nat, f: nat)
    requires (parent, child) in Forks(s, s') && !Below(s, parent, LEVELS, f)
    ensures Paths(s', f) == Paths(s, f)
  {
    forall r: nat, p: seq<nat> ensures (r, p) in Paths(s', f) <==> (r, p) in Paths(s, f) {
      ForkMember(s, s', parent, child, f, r, p);
    }
  }

  lemma ForkMember(s: State, s': State, parent: nat, child: nat, f: nat, r: nat, p: seq<nat>)
    requires (parent, child) in Forks(s, s')
    ensures (r, p) in Paths(s', f) <==>
            (r, p) in Paths(s, f) || (r == child && p != [] && Reaches(s, parent, p, f))
    ensures r == child ==> (r, p) !in Paths(s, f)
  {
    InPaths(s, f, r, p);
    InPaths(s', f, r, p);
    if p != [] { ForkReaches(s, s', parent, child, r, p, f); }
  }

  lemma ForkCounted(s: State, s': State, parent: nat, child: nat)
    requires Inv(s) && ForkStep(s, s', parent, child)
    ensures Counted(s')
  {
    assert (parent, child) in Forks(s, s');
    forall f: nat | f in s'.used && f !in s'.reserved
      ensures f !in s'.roots ==> f < |s'.refs| && s'.refs[f] == |Paths(s', f)| && s'.refs[f] > 0
      ensures f in s'.roots ==> f < |s'.refs| && s'.refs[f] == 1
    {
      BelowIsUser(s, parent, LEVELS, f);
      if Below(s, parent, LEVELS, f) {
        ForkCountBelow(s, s', parent, child, f);
      } else {
        ForkCountElsewhere(s, s', parent, child, f);
      }
    }
  }

  /** A fork keeps the invariant. */
  lemma ForkKeepsInv(s: State, s': State, parent: nat, child: nat)
    requires Inv(s) && ForkStep(s, s', parent, child)
    ensures Inv(s')
  {
    ForkRoots(s, s', parent, child);
    ForkTyped(s, s', parent, child);
    ForkTrees(s, s', parent, child);
    ForkFlags(s, s', parent, child);
    ForkPrivate(s, s', parent, child);
    ForkCounted(s, s', parent, child);
  }

  // ------------------------------------------------------------- views

  lemma ForkView(s: State, s': State, parent: nat, child: nat, r: nat, q: seq<nat>)
    requires (parent, child) in Forks(s, s') && CowReadOnly(s) && r in s'.roots && PagePath(q)
    ensures var r0 := Origin(parent, child, r);
            (Mapped(s', r, q) <==> Mapped(s, r0, q)) && (Mapped(s, r0, q) ==> View(s', r, q) == View(s, r0, q))
  {
    var r0 := Origin(parent, child, r);
    forall j | 1 <= j <= LEVELS ensures SameAccess(Ent(s.mem, r0, q[..j]), Ent(s'.mem, r, q[..j])) {
      if r == child {
        ChildEntries(s, s', parent, child, q[..j]);
      } else {
        ForkEntries(s, s', parent, child, r, q[..j]);
      }
      if Ent(s.mem, r0, q[..j]).Some? {
        assert Selects(s, r0, q[..j], Ent(s.mem, r0, q[..j]).value);
      }
    }
    if r == child { ChildEntries(s, s', parent, child, q); } else { ForkEntries(s, s', parent, child, r, q); }
    if Walk(s.mem, r0, q).Some? {
      assert Reaches(s, r0, q, Walk(s.mem, r0, q).value);
    }
    SameView(s, r0, s', r, q);
  }

  /** The eager fork: the child starts with a copy of everything the parent sees. */
  ghost function Duplicated(v: Views, parent: nat, child: nat): Views {
    imap r, q | (Origin(parent, child, r), q) in v :: (r, q) := v[(Origin(parent, child, r), q)]
  }

  lemma DuplicatedAt(v: Views, parent: nat, child: nat, r: nat, q: seq<nat>)
    ensures (r, q) in Duplicated(v, parent, child) <==> (Origin(parent, child, r), q) in v
    ensures (Origin(parent, child, r), q) in v ==>
      Duplicated(v, parent, child)[(r, q)] == v[(Origin(parent, child, r), q)]
  {}

  lemma DuplicatedView(s: State, s': State, parent: nat, child: nat, r: nat, q: seq<nat>)
    requires Mapped(s', r, q) <==> Mapped(s, Origin(parent, child, r), q)
    requires Mapped(s', r, q) ==> View(s', r, q) == View(s, Origin(parent, child, r), q)
    ensures Agree(AllViews(s'), Duplicated(AllViews(s), parent, child), r, q)
  {
    InViews(s', r, q);
    InViews(s, Origin(parent, child, r), q);
    DuplicatedAt(AllViews(s), parent, child, r, q);
  }

  /** Fork gives the child the parent's view and changes nobody else's. */
  lemma ForkDuplicatesViews(s: State, s': State, parent: nat, child: nat)
    requires Inv(s) && ForkStep(s, s', parent, child)
    ensures AllViews(s') == Duplicated(AllViews(s), parent, child)
  {
    assert (parent, child) in Forks(s, s');
    forall r: nat, q: seq<nat> ensures Agree(AllViews(s'), Duplicated(AllViews(s), parent, child), r, q) {
      if r in s'.roots && PagePath(q) { ForkView(s, s', parent, child, r, q); }
      DuplicatedView(s, s', parent, child, r, q);
    }
    ViewsExtensional(AllViews(s'), Duplicated(AllViews(s), parent, child));
  }
}
