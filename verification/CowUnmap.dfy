/**
 Unmapping a page: its entry, in a table of one's own, is cleared. The frame loses a
 reference only if the entry says that it is managed.
 */
module CowUnmap {
  import opened PageTables
  import opened AddressSpaces
  import opened CowInstall

  /** The entry that goes. */
  ghost function Gone(s: State, c: Install): Entry
    requires IsTable(s.mem, c.table) && c.i < ENTRIES
  {
    s.mem[c.table].es[c.i]
  }

  ghost predicate UnmapStep(s: State, s': State, c: Install) {
    && OwnTable(s, c.root, c.p, c.table) && |c.Path()| == LEVELS && UserPath(c.Path()) && c.i < ENTRIES && c.e == EMPTY
    && var e := Gone(s, c);
      && e.present
      && s'.mem == s.mem[c.table := Table(s.mem[c.table].es[c.i := EMPTY])]
      && s'.roots == s.roots && s'.reserved == s.reserved && |s'.refs| == |s.refs|
      && (forall f :: f in s'.used <==> f in s.used && !(e.managed && f == e.frame && f < |s.refs| && s.refs[f] == 1))
      && (forall f :: f in s'.used && f < |s.refs| ==>
            s.refs[f] == s'.refs[f] + if e.managed && f == e.frame then 1 else 0)
  }

  ghost function Unmaps(s: State, s': State): iset<Install> {
    iset c | RootsOk(s) && Typed(s) && Private(s) && UnmapStep(s, s', c)
  }

  lemma InUnmaps(s: State, s': State, c: Install)
    requires Inv(s) && UnmapStep(s, s', c)
    ensures c in Unmaps(s, s')
  {}

  lemma {:induction false} UnmapEntries(s: State, s': State, c: Install, r: nat, p: seq<nat>)
    requires c in Unmaps(s, s') && r in s.roots && UserPath(p)
    ensures Walk(s'.mem, r, p) == if c.IsNew(r, p) then None else Walk(s.mem, r, p)
    ensures p != [] ==> Ent(s'.mem, r, p) == if c.IsNew(r, p) then None else Ent(s.mem, r, p)
    ensures c.IsNew(r, p) ==> Ent(s.mem, r, p) == Some(s.mem[c.table].es[c.i])
    decreases |p|
  {
    if p != [] {
      var front, i := p[..|p| - 1], p[|p| - 1];
      assert p == front + [i];
      UnmapEntries(s, s', c, r, front);
      WalkSnoc(s.mem, r, front, i);
      WalkSnoc(s'.mem, r, front, i);
      assert c.IsNew(r, p) <==> r == c.root && front == c.p && i == c.i;
      if Walk(s.mem, r, front).Some? {
        UnmapLookup(s, s', c, r, front, i, Walk(s.mem, r, front).value);
      }
    }
  }

  lemma UnmapLookup(s: State, s': State, c: Install, r: nat, front: seq<nat>, i: nat, u: nat)
    requires c in Unmaps(s, s') && Reaches(s, r, front, u)
    ensures Lookup(s'.mem, u, i) == if r == c.root && front == c.p && i == c.i then None else Lookup(s.mem, u, i)
    ensures r == c.root && front == c.p ==> u == c.table
  {
    if u == c.table { OwnerIsUnique(s, c.root, c.p, c.table, r, front); }
  }

  lemma UnmapReaches(s: State, s': State, c: Install, r: nat, p: seq<nat>, f: nat)
    requires c in Unmaps(s, s')
    ensures Reaches(s', r, p, f) <==> Reaches(s, r, p, f) && !c.IsNew(r, p)
    ensures c.IsNew(r, p) ==> Reaches(s, r, p, Gone(s, c).frame)
  {
    if r in s.roots && UserPath(p) { UnmapEntries(s, s', c, r, p); }
  }

  lemma UnmapSelects(s: State, s': State, c: Install, r: nat, p: seq<nat>, e: Entry)
    requires c in Unmaps(s, s') && p != []
    ensures Selects(s', r, p, e) <==> Selects(s, r, p, e) && !c.IsNew(r, p)
  {
    if r in s.roots && UserPath(p) { UnmapEntries(s, s', c, r, p); }
  }

  lemma UnmapRoots(s: State, s': State, c: Install)
    requires Inv(s) && UnmapStep(s, s', c)
    ensures RootsOk(s') && KernelHalf(s')
  {
    forall r | r in s.roots ensures KeepsUpper(s, s', r) { UpperKept(s, s', c, r); }
    OwnIsUser(s, c);
    InUnmaps(s, s', c);
    UnmapReaches(s, s', c, c.root, c.Path(), Gone(s, c).frame);
    assert Gone(s, c).frame !in s.reserved + s.roots;
    hide Inv, RootsOk, KernelHalf, KeepsUpper, OwnTable;
    InvParts(s);
    FramesInRange(s);
    RootsKept(s, s');
  }

  lemma UnmapFlags(s: State, s': State, c: Install)
    requires Inv(s) && UnmapStep(s, s', c)
    ensures CowReadOnly(s') && CowDown(s') && FlagsUp(s')
  {
    InUnmaps(s, s', c);
    hide Inv, UnmapStep, Unmaps;
    FlagParts(s);
    forall r: nat, p: seq<nat>, e ensures Selects(s', r, p, e) ==> Selects(s, r, p, e) {
      if Selects(s', r, p, e) { UnmapSelects(s, s', c, r, p, e); }
    }
    hide CowReadOnly, CowDown, FlagsUp;
    FewerEntries(s, s');
  }

  lemma UnmapMember(s: State, s': State, c: Install, f: nat, r: nat, p: seq<nat>)
    requires c in Unmaps(s, s')
    ensures (r, p) in Paths(s', f) <==> (r, p) in Paths(s, f) && (r, p) != (c.root, c.Path())
  {
    InPaths(s, f, r, p);
    InPaths(s', f, r, p);
    UnmapReaches(s, s', c, r, p, f);
  }

  /** The frame behind the entry loses a path, and no other does. */
  lemma UnmapCount(s: State, s': State, c: Install, f: nat)
    requires c in Unmaps(s, s')
    ensures |Paths(s, f)| == |Paths(s', f)| + if f == Gone(s, c).frame then 1 else 0
  {
    var one := (c.root, c.Path());
    UnmapReaches(s, s', c, c.root, c.Path(), Gone(s, c).frame);
    InPaths(s, f, c.root, c.Path());
    forall r: nat, p: seq<nat> ensures (r, p) in Paths(s', f) <==> (r, p) in Paths(s, f) - {one} {
      UnmapMember(s, s', c, f, r, p);
    }
    assert Paths(s', f) == Paths(s, f) - {one};
  }

  /** The frame behind the entry is a user frame with a count. */
  lemma GoneFrame(s: State, s': State, c: Install)
    requires Inv(s) && UnmapStep(s, s', c)
    ensures var f := Gone(s, c).frame;
      f in s.used && f !in s.reserved && f !in s.roots && f < |s.refs| && s.refs[f] == |Paths(s, f)| > 0
  {
    InUnmaps(s, s', c);
    UnmapReaches(s, s', c, c.root, c.Path(), Gone(s, c).frame);
  }

  lemma UnmapCountedIff(s: State, s': State, c: Install)
    requires Inv(s) && UnmapStep(s, s', c)
    ensures Counted(s') <==> Gone(s, c).managed
  {
    InUnmaps(s, s', c);
    GoneFrame(s, s', c);
    var f := Gone(s, c).frame;
    if Gone(s, c).managed {
      forall g | g in s'.used && g !in s'.reserved && g !in s'.roots
        ensures g < |s'.refs| && s'.refs[g] == |Paths(s', g)| && s'.refs[g] > 0
      {
        UnmapCount(s, s', c, g);
      }
    } else {
      UnmapCount(s, s', c, f);
      assert f in s'.used && s'.refs[f] != |Paths(s', f)|;
    }
  }

  lemma UnmapShape(s: State, s': State, c: Install)
    requires Inv(s) && UnmapStep(s, s', c) && Gone(s, c).managed
    ensures Typed(s') && Trees(s') && Private(s')
  {
    InUnmaps(s, s', c);
    forall r: nat, p: seq<nat>, f: nat | Reaches(s', r, p, f) && p != []
      ensures Reaches(s, r, p, f) && f in s'.used && f !in s'.reserved && f !in s'.roots
      ensures if |p| < LEVELS then IsTable(s'.mem, f) else IsData(s'.mem, f)
    {
      UnmapReaches(s, s', c, r, p, f);
      assert f in s.used && (if |p| < LEVELS then IsTable(s.mem, f) else IsData(s.mem, f));
      if f == Gone(s, c).frame {
        UnmapReaches(s, s', c, c.root, c.Path(), f);
        TwoPaths(s, f, r, p, c.root, c.Path());
      }
    }
    forall r: nat, p: seq<nat>, f: nat | Reaches(s', r, p, f) ensures Reaches(s, r, p, f) {
      UnmapReaches(s, s', c, r, p, f);
    }
    forall r: nat, p: seq<nat>, e | Selects(s', r, p, e) ensures Selects(s, r, p, e) {
      UnmapSelects(s, s', c, r, p, e);
    }
  }

  /** Unmapping keeps the invariant exactly if the entry is managed; otherwise the frame
      keeps a reference that no path accounts for. */
  lemma UnmapKeepsInvIff(s: State, s': State, c: Install)
    requires Inv(s) && UnmapStep(s, s', c)
    ensures Inv(s') <==> Gone(s, c).managed
  {
    UnmapCountedIff(s, s', c);
    if Gone(s, c).managed {
      UnmapRoots(s, s', c);
      UnmapFlags(s, s', c);
      UnmapShape(s, s', c);
    }
  }

  // ------------------------------------------------------------------ views

  /** What unmapping does to the views. */
  ghost function Unmapped(v: Views, r: nat, q: seq<nat>): Views {
    imap r', q' | (r', q') in v && (r', q') != (r, q) :: (r', q') := v[(r', q')]
  }

  lemma UnmappedAt(v: Views, r: nat, q: seq<nat>, r': nat, q': seq<nat>)
    ensures (r', q') in Unmapped(v, r, q) <==> (r', q') in v && (r', q') != (r, q)
    ensures (r', q') in Unmapped(v, r, q) ==> Unmapped(v, r, q)[(r', q')] == v[(r', q')]
  {}

  lemma UnmapOtherView(s: State, s': State, c: Install, r: nat, q: seq<nat>)
    requires c in Unmaps(s, s') && r in s.roots && PagePath(q) && !c.IsNew(r, q)
    ensures SameViewAt(s, s', r, q)
  {
    UnmapEntries(s, s', c, r, q);
    assert q[..LEVELS] == q;
    forall j | 1 <= j <= LEVELS ensures SameAccess(Ent(s.mem, r, q[..j]), Ent(s'.mem, r, q[..j])) {
      UnmapEntries(s, s', c, r, q[..j]);
    }
    if Walk(s.mem, r, q).Some? {
      assert Reaches(s, r, q, Walk(s.mem, r, q).value);
      assert IsData(s.mem, Walk(s.mem, r, q).value) && IsTable(s.mem, c.table);
    }
    SameView(s, r, s', r, q);
  }

  /** The page disappears from its process's view, and nobody else's view changes. */
  lemma UnmapViews(s: State, s': State, c: Install)
    requires Inv(s) && UnmapStep(s, s', c)
    ensures (c.root, c.Path()) in AllViews(s)
    ensures AllViews(s') == Unmapped(AllViews(s), c.root, c.Path())
  {
    InUnmaps(s, s', c);
    UnmapReaches(s, s', c, c.root, c.Path(), Gone(s, c).frame);
    InViews(s, c.root, c.Path());
    var expected := Unmapped(AllViews(s), c.root, c.Path());
    forall r: nat, q: seq<nat> ensures Agree(AllViews(s'), expected, r, q) {
      InViews(s, r, q);
      InViews(s', r, q);
      UnmappedAt(AllViews(s), c.root, c.Path(), r, q);
      if r in s.roots && PagePath(q) {
        UnmapEntries(s, s', c, r, q);
        if !c.IsNew(r, q) { UnmapOtherView(s, s', c, r, q); }
      }
    }
    ViewsExtensional(AllViews(s'), expected);
  }
}
