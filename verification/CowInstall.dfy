/**
 Mapping: a fresh frame is put under an entry that was not present, in a table
 that belongs to one address space; and an entry of such a table gains user access.
 */
module CowInstall {
  import opened PageTables
  import opened AddressSpaces
  import opened CowMap

  /** The entry e goes to index i of the table at path p. */
  datatype Install = Install(root: nat, p: seq<nat>, i: nat, table: nat, e: Entry)
  {
    function Path(): seq<nat> { p + [i] }

    /** The path names the entry itself. */
    predicate IsNew(r: nat, p': seq<nat>) { r == root && p' == p + [i] }
  }

  /** Nothing else reaches the table at the end of path p. */
  ghost predicate OwnTable(s: State, r: nat, p: seq<nat>, t: nat) {
    TableAt(s, r, p, t) && (p != [] ==> Ent(s.mem, r, p).Some? && !Ent(s.mem, r, p).value.cow)
  }

  ghost predicate TableAt(s: State, r: nat, p: seq<nat>, t: nat) {
    r in s.roots && UserPath(p) && |p| < LEVELS && Walk(s.mem, r, p) == Some(t) && IsTable(s.mem, t)
  }

  ghost predicate InstallStep(s: State, s': State, c: Install) {
    OwnTable(s, c.root, c.p, c.table) && NewEntry(s, s', c)
  }

  /** A fresh frame is put under an entry that was not present. */
  ghost predicate NewEntry(s: State, s': State, c: Install) {
    && TableAt(s, c.root, c.p, c.table) && UserPath(c.Path()) && c.i < ENTRIES
    && !s.mem[c.table].es[c.i].present
    && c.e.present && !c.e.cow && c.e.frame !in s.used && c.e.frame < |s.mem|
    && (c.e.user && c.p != [] ==> Ent(s.mem, c.root, c.p).Some? && Ent(s.mem, c.root, c.p).value.user)
    && (|c.p| + 1 < LEVELS ==> c.e.writable && !c.e.noExecute)
    && |s'.mem| == |s.mem| == |s.refs| == |s'.refs|
    && s'.mem[c.table] == Table(s.mem[c.table].es[c.i := c.e])
    && (if |c.p| + 1 < LEVELS then s'.mem[c.e.frame] == EmptyTable() else IsData(s'.mem, c.e.frame))
    && (forall f :: 0 <= f < |s.mem| && f != c.table && f != c.e.frame ==> s'.mem[f] == s.mem[f])
    && (forall f :: 0 <= f < |s.refs| ==> s'.refs[f] == if f == c.e.frame then 1 else s.refs[f])
    && s'.used == s.used + {c.e.frame} && s'.roots == s.roots && s'.reserved == s.reserved
  }

  ghost function Installs(s: State, s': State): iset<Install> {
    iset c | RootsOk(s) && Typed(s) && Private(s) && InstallStep(s, s', c)
  }

  lemma OwnerIsUnique(s: State, r: nat, p: seq<nat>, t: nat, r': nat, p': seq<nat>)
    requires Typed(s) && Private(s) && OwnTable(s, r, p, t) && Reaches(s, r', p', t)
    ensures r' == r && p' == p
  {
    if p == [] {
      assert Reaches(s, r', [], r');
    } else {
      assert Selects(s, r, p, Ent(s.mem, r, p).value);
    }
  }

  lemma {:induction false} InstallEntries(s: State, s': State, c: Install, r: nat, p: seq<nat>)
    requires c in Installs(s, s') && r in s.roots && UserPath(p)
    ensures Walk(s'.mem, r, p) == if c.IsNew(r, p) then Some(c.e.frame) else Walk(s.mem, r, p)
    ensures p != [] ==> Ent(s'.mem, r, p) == if c.IsNew(r, p) then Some(c.e) else Ent(s.mem, r, p)
    decreases |p|
  {
    if p != [] {
      var front, i := p[..|p| - 1], p[|p| - 1];
      assert p == front + [i];
      InstallEntries(s, s', c, r, front);
      WalkSnoc(s.mem, r, front, i);
      WalkSnoc(s'.mem, r, front, i);
      assert c.IsNew(r, p) <==> r == c.root && front == c.p && i == c.i;
      if c.IsNew(r, front) {
        WalkSnoc(s.mem, r, c.p, c.i);
      } else if Walk(s.mem, r, front).Some? {
        InstallLookup(s, s', c, r, front, i, Walk(s.mem, r, front).value);
      }
    }
  }

  lemma InstallLookup(s: State, s': State, c: Install, r: nat, front: seq<nat>, i: nat, u: nat)
    requires c in Installs(s, s') && Reaches(s, r, front, u)
    ensures Lookup(s'.mem, u, i) == if r == c.root && front == c.p && i == c.i then Some(c.e) else Lookup(s.mem, u, i)
  {
    assert u in s.used;
    if u == c.table { OwnerIsUnique(s, c.root, c.p, c.table, r, front); }
  }

  lemma InstallReaches(s: State, s': State, c: Install, r: nat, p: seq<nat>, f: nat)
    requires c in Installs(s, s')
    ensures Reaches(s', r, p, f) <==> if c.IsNew(r, p) then f == c.e.frame else Reaches(s, r, p, f)
    ensures Reaches(s, r, p, f) ==> f != c.e.frame
  {
    if r in s.roots && UserPath(p) {
      InstallEntries(s, s', c, r, p);
    }
  }

  lemma InstallSelects(s: State, s': State, c: Install, r: nat, p: seq<nat>, e: Entry)
    requires c in Installs(s, s') && p != []
    ensures Selects(s', r, p, e) <==> if c.IsNew(r, p) then e == c.e else Selects(s, r, p, e)
  {
    if r in s.roots && UserPath(p) { InstallEntries(s, s', c, r, p); }
  }

  /** Nothing was reachable through the new entry's path before. */
  lemma NothingBelow(s: State, c: Install, p: seq<nat>, e: Entry)
    requires OwnTable(s, c.root, c.p, c.table) && c.i < ENTRIES && !s.mem[c.table].es[c.i].present
    ensures !Selects(s, c.root, c.Path() + p, e)
  {
    assert (c.Path() + p)[..|c.Path()|] == c.p + [c.i];
    WalkSnoc(s.mem, c.root, c.p, c.i);
    if Selects(s, c.root, c.Path() + p, e) {
      WalkPrefix(s.mem, c.root, c.Path() + p, |c.Path()|);
    }
  }

  /** A change of one user entry of one's own table. */
  lemma UpperKept(s: State, s': State, c: Install, r: nat)
    requires RootsOk(s) && Typed(s) && Private(s) && r in s.roots
    requires OwnTable(s, c.root, c.p, c.table) && UserPath(c.Path()) && c.i < ENTRIES && |s'.mem| == |s.mem|
    requires s'.mem[c.table] == Table(s.mem[c.table].es[c.i := c.e]) && (r != c.table ==> s'.mem[r] == s.mem[r])
    ensures KeepsUpper(s, s', r)
  {
    if r == c.table {
      assert Reaches(s, r, [], r);
      OwnerIsUnique(s, c.root, c.p, c.table, r, []);
      assert c.Path()[0] == c.i;
    }
  }

  lemma OwnIsUser(s: State, c: Install)
    requires RootsOk(s) && Typed(s) && OwnTable(s, c.root, c.p, c.table)
    ensures c.table in s.used && c.table !in s.reserved
  {
    assert Reaches(s, c.root, c.p, c.table);
  }

  lemma InstallRoots(s: State, s': State, c: Install)
    requires Inv(s) && InstallStep(s, s', c)
    ensures RootsOk(s') && KernelHalf(s')
  {
    forall r | r in s.roots ensures KeepsUpper(s, s', r) { UpperKept(s, s', c, r); }
    OwnIsUser(s, c);
    hide Inv, RootsOk, KernelHalf, KeepsUpper, OwnTable;
    InvParts(s);
    FramesInRange(s);
    RootsKept(s, s');
  }

  lemma InstallShape(s: State, s': State, c: Install)
    requires Inv(s) && InstallStep(s, s', c)
    ensures Typed(s') && Trees(s')
  {
    assert c in Installs(s, s');
    forall r: nat, p: seq<nat>, f: nat | Reaches(s', r, p, f)
      ensures if c.IsNew(r, p) then f == c.e.frame else Reaches(s, r, p, f) && f != c.e.frame
    {
      InstallReaches(s, s', c, r, p, f);
    }
    forall f | f in s.used && f != c.table ensures s'.mem[f] == s.mem[f] {}
  }

  lemma InstallFlags(s: State, s': State, c: Install)
    requires Inv(s) && InstallStep(s, s', c)
    ensures CowReadOnly(s') && CowDown(s') && FlagsUp(s')
  {
    assert c in Installs(s, s');
    forall r: nat, p: seq<nat>, e | Selects(s', r, p, e)
      ensures if c.IsNew(r, p) then e == c.e else Selects(s, r, p, e)
    {
      InstallSelects(s, s', c, r, p, e);
    }
    forall r: nat, p: seq<nat>, e, i: nat, e' | Selects(s', r, p, e) && Selects(s', r, p + [i], e')
      ensures (e.cow ==> e'.cow) && (e'.user ==> e.user)
    {
      if c.IsNew(r, p + [i]) {
        assert p == (p + [i])[..|p|] == c.p;
      } else if c.IsNew(r, p) {
        NothingBelow(s, c, [i], e');
      }
    }
  }

  lemma InstallPrivate(s: State, s': State, c: Install)
    requires Inv(s) && InstallStep(s, s', c)
    ensures Private(s')
  {
    assert c in Installs(s, s');
    forall r: nat, p: seq<nat>, e, r': nat, p': seq<nat> | Selects(s', r, p, e) && !e.cow
      && Reaches(s', r', p', e.frame)
      ensures r' == r && p' == p
    {
      InstallSelects(s, s', c, r, p, e);
      InstallReaches(s, s', c, r, p, e.frame);
      InstallReaches(s, s', c, r', p', e.frame);
      assert Reaches(s', r, p, e.frame);
    }
  }

  lemma InstallMember(s: State, s': State, c: Install, f: nat, r: nat, p: seq<nat>)
    requires c in Installs(s, s')
    ensures (r, p) in Paths(s', f) <==> if f == c.e.frame then (r, p) == (c.root, c.Path()) else (r, p) in Paths(s, f)
  {
    InPaths(s, f, r, p);
    InPaths(s', f, r, p);
    InstallReaches(s, s', c, r, p, f);
    if c.IsNew(r, p) {
      WalkSnoc(s.mem, r, c.p, c.i);
    }
  }

  lemma InstallCounted(s: State, s': State, c: Install)
    requires Inv(s) && InstallStep(s, s', c)
    ensures Counted(s')
  {
    assert c in Installs(s, s');
    forall f: nat | f in s'.used && f !in s'.reserved && f !in s'.roots
      ensures s'.refs[f] == |Paths(s', f)| && s'.refs[f] > 0
    {
      forall r: nat, p: seq<nat>
        ensures (r, p) in Paths(s', f) <==>
          if f == c.e.frame then (r, p) == (c.root, c.Path()) else (r, p) in Paths(s, f)
      {
        InstallMember(s, s', c, f, r, p);
      }
      assert Paths(s', f) == if f == c.e.frame then {(c.root, c.Path())} else Paths(s, f);
    }
  }

  lemma InstallKeepsInv(s: State, s': State, c: Install)
    requires Inv(s) && InstallStep(s, s', c)
    ensures Inv(s')
  {
    InstallRoots(s, s', c);
    InstallShape(s, s', c);
    InstallFlags(s, s', c);
    InstallPrivate(s, s', c);
    InstallCounted(s, s', c);
  }

  // ------------------------------------------------------------------ views

  /** The rights that the last entry on the way to a page gives, all others passing them on. */
  function RightsOf(e: Entry): Rights {
    Rights(e.user, e.EffectivelyWritable(), !e.noExecute)
  }

  lemma InstallOtherView(s: State, s': State, c: Install, r: nat, q: seq<nat>)
    requires c in Installs(s, s') && r in s.roots && PagePath(q) && !c.IsNew(r, q)
    ensures SameViewAt(s, s', r, q)
  {
    InstallEntries(s, s', c, r, q);
    if Walk(s.mem, r, q).Some? {
      forall j | 1 <= j <= LEVELS ensures SameAccess(Ent(s.mem, r, q[..j]), Ent(s'.mem, r, q[..j])) {
        InstallEntries(s, s', c, r, q[..j]);
        WalkPrefix(s.mem, r, q, j);
        if c.IsNew(r, q[..j]) { WalkSnoc(s.mem, r, c.p, c.i); }
      }
      InstallSamePage(s, s', c, r, q, Walk(s.mem, r, q).value);
      SameView(s, r, s', r, q);
    }
  }

  lemma InstallSamePage(s: State, s': State, c: Install, r: nat, q: seq<nat>, f: nat)
    requires c in Installs(s, s') && PagePath(q) && Reaches(s, r, q, f)
    ensures f < |s.mem| && s'.mem[f] == s.mem[f]
  {
    assert IsData(s.mem, f);
  }

  /** The page a leaf install adds has exactly the requested rights. */
  lemma InstallNewView(s: State, s': State, c: Install)
    requires Inv(s) && InstallStep(s, s', c) && |c.p| + 1 == LEVELS
    ensures Mapped(s', c.root, c.Path())
    ensures View(s', c.root, c.Path()) == Page(s'.mem[c.e.frame].bytes, RightsOf(c.e))
  {
    assert c in Installs(s, s');
    InstallEntries(s, s', c, c.root, c.Path());
    InstallFlags(s, s', c);
    LeafDecides(s', c.root, c.Path());
  }

  /** A new table changes no view; a new page adds one view and changes no other. */
  lemma InstallViews(s: State, s': State, c: Install)
    requires Inv(s) && InstallStep(s, s', c)
    ensures (c.root, c.Path()) !in AllViews(s)
    ensures |c.p| + 1 < LEVELS ==> AllViews(s') == AllViews(s)
    ensures |c.p| + 1 == LEVELS ==>
              IsData(s'.mem, c.e.frame) &&
              AllViews(s') == AllViews(s)[(c.root, c.Path()) := Page(s'.mem[c.e.frame].bytes, RightsOf(c.e))]
  {
    assert c in Installs(s, s');
    WalkSnoc(s.mem, c.root, c.p, c.i);
    InViews(s, c.root, c.Path());
    var expected := if |c.p| + 1 < LEVELS then AllViews(s)
      else AllViews(s)[(c.root, c.Path()) := Page(s'.mem[c.e.frame].bytes, RightsOf(c.e))];
    forall r: nat, q: seq<nat> ensures Agree(AllViews(s'), expected, r, q) {
      InViews(s, r, q);
      InViews(s', r, q);
      if r in s.roots && PagePath(q) {
        if c.IsNew(r, q) { InstallNewView(s, s', c); } else { InstallOtherView(s, s', c, r, q); }
      }
    }
    ViewsExtensional(AllViews(s'), expected);
  }

  // ------------------------------------------------------- other flags

  /** A present entry of one's own table gets other flags; where it points stays. */
  ghost predicate ReflagStep(s: State, s': State, c: Install) {
    && OwnTable(s, c.root, c.p, c.table) && UserPath(c.Path()) && c.i < ENTRIES
    && var e := s.mem[c.table].es[c.i];
      && e.present && c.e.present && SameTarget(e, c.e)
      && (c.e.user && c.p != [] ==> Ent(s.mem, c.root, c.p).value.user)
      && (|c.p| + 1 < LEVELS ==> (e.user ==> c.e.user) && c.e.PassesOn())
      && s' == s.(mem := s.mem[c.table := Table(s.mem[c.table].es[c.i := c.e])])
  }

  /** A table entry gains user access. */
  ghost predicate WidenStep(s: State, s': State, r: nat, p: seq<nat>, i: nat, t: nat) {
    && IsTable(s.mem, t) && i < ENTRIES && |p| + 1 < LEVELS
    && ReflagStep(s, s', Install(r, p, i, t, s.mem[t].es[i].(user := true)))
  }

  ghost function Reflags(s: State, s': State): iset<Install> {
    iset c | RootsOk(s) && Typed(s) && Private(s) && ReflagStep(s, s', c)
  }

  lemma {:induction false} ReflagEntries(s: State, s': State, c: Install, r: nat, p: seq<nat>)
    requires c in Reflags(s, s') && r in s.roots && UserPath(p)
    ensures Walk(s'.mem, r, p) == Walk(s.mem, r, p)
    ensures p != [] ==> Ent(s'.mem, r, p) == if c.IsNew(r, p) then Some(c.e) else Ent(s.mem, r, p)
    ensures c.IsNew(r, p) ==> Ent(s.mem, r, p) == Some(s.mem[c.table].es[c.i])
    decreases |p|
  {
    if p != [] {
      var front, i := p[..|p| - 1], p[|p| - 1];
      assert p == front + [i];
      ReflagEntries(s, s', c, r, front);
      WalkSnoc(s.mem, r, front, i);
      WalkSnoc(s'.mem, r, front, i);
      assert c.IsNew(r, p) <==> r == c.root && front == c.p && i == c.i;
      if Walk(s.mem, r, front).Some? {
        ReflagLookup(s, s', c, r, front, i, Walk(s.mem, r, front).value);
      }
    }
  }

  lemma ReflagLookup(s: State, s': State, c: Install, r: nat, front: seq<nat>, i: nat, u: nat)
    requires c in Reflags(s, s') && Reaches(s, r, front, u)
    ensures Lookup(s'.mem, u, i) == if r == c.root && front == c.p && i == c.i then Some(c.e) else Lookup(s.mem, u, i)
    ensures r == c.root && front == c.p ==> u == c.table
  {
    if u == c.table { OwnerIsUnique(s, c.root, c.p, c.table, r, front); }
  }

  lemma ReflagReaches(s: State, s': State, c: Install, r: nat, p: seq<nat>, f: nat)
    requires c in Reflags(s, s')
    ensures Reaches(s', r, p, f) <==> Reaches(s, r, p, f)
  {
    if r in s.roots && UserPath(p) { ReflagEntries(s, s', c, r, p); }
  }

  lemma ReflagSelects(s: State, s': State, c: Install, r: nat, p: seq<nat>, e: Entry) returns (e0: Entry)
    requires c in Reflags(s, s') && Selects(s', r, p, e)
    ensures Selects(s, r, p, e0) && e == if c.IsNew(r, p) then c.e else e0
    ensures c.IsNew(r, p) ==> e0 == s.mem[c.table].es[c.i]
  {
    ReflagEntries(s, s', c, r, p);
    e0 := Ent(s.mem, r, p).value;
  }

  lemma ReflagUp(s: State, s': State, c: Install, r: nat, p: seq<nat>, e: Entry, i: nat, e': Entry)
    requires c in Reflags(s, s') && FlagsUp(s) && Selects(s', r, p, e) && Selects(s', r, p + [i], e')
    ensures e'.user ==> e.user
  {
    var e0 := ReflagSelects(s, s', c, r, p, e);
    var e1 := ReflagSelects(s, s', c, r, p + [i], e');
    if c.IsNew(r, p + [i]) {
      assert p == (p + [i])[..|p|] == c.p;
    }
  }

  lemma ReflagRoots(s: State, s': State, c: Install)
    requires Inv(s) && ReflagStep(s, s', c)
    ensures RootsOk(s') && KernelHalf(s')
  {
    forall r | r in s.roots ensures KeepsUpper(s, s', r) { UpperKept(s, s', c, r); }
    OwnIsUser(s, c);
    hide Inv, RootsOk, KernelHalf, KeepsUpper, OwnTable;
    InvParts(s);
    FramesInRange(s);
    RootsKept(s, s');
  }

  /** New flags for an entry keep the invariant. */
  lemma ReflagKeepsInv(s: State, s': State, c: Install)
    requires Inv(s) && ReflagStep(s, s', c)
    ensures Inv(s')
  {
    assert c in Reflags(s, s');
    ReflagRoots(s, s', c);
    hide Inv, ReflagStep, Reflags, RootsOk, KernelHalf;
    FlagParts(s);
    forall r: nat, p: seq<nat>, f: nat ensures Reaches(s', r, p, f) <==> Reaches(s, r, p, f) {
      ReflagReaches(s, s', c, r, p, f);
    }
    forall r: nat, p: seq<nat>, e | Selects(s', r, p, e) ensures ComesFrom(s, r, p, e) {
      var e0 := ReflagSelects(s, s', c, r, p, e);
      ReflagKind(s, s', c, p, e0, e);
    }
    forall r: nat, p: seq<nat>, e, i: nat, e' | Selects(s', r, p, e) && Selects(s', r, p + [i], e')
      ensures e'.user ==> e.user
    {
      ReflagUp(s, s', c, r, p, e, i, e');
    }
    ReflagFrames(s, s', c);
    SameShapeKeepsInv(s, s');
  }

  lemma ReflagKind(s: State, s': State, c: Install, p: seq<nat>, e0: Entry, e: Entry)
    requires ReflagStep(s, s', c)
    requires e == e0 || (p == c.Path() && e == c.e && e0 == s.mem[c.table].es[c.i])
    ensures SameTarget(e0, e) && (|p| < LEVELS && e0.PassesOn() ==> e.PassesOn())
  {}

  lemma ReflagFrames(s: State, s': State, c: Install)
    requires ReflagStep(s, s', c)
    ensures SameFrames(s, s')
  {}

  // ------------------------------------------------------ views, once more

  lemma ReflagOtherView(s: State, s': State, c: Install, r: nat, q: seq<nat>)
    requires Inv(s) && Inv(s') && ReflagStep(s, s', c) && r in s.roots && PagePath(q) && !c.IsNew(r, q)
    ensures SameViewAt(s, s', r, q)
  {
    assert c in Reflags(s, s');
    hide Inv, ReflagStep, Reflags;
    FlagParts(s);
    FlagParts(s');
    ReflagEntries(s, s', c, r, q);
    if Walk(s.mem, r, q).Some? {
      ReflagPage(s, s', c, r, q, Walk(s.mem, r, q).value);
      LeafDecides(s, r, q);
      LeafDecides(s', r, q);
    }
  }

  lemma ReflagPage(s: State, s': State, c: Install, r: nat, q: seq<nat>, f: nat)
    requires c in Reflags(s, s') && PagePath(q) && Reaches(s, r, q, f)
    ensures f < |s.mem| && s'.mem[f] == s.mem[f] && s'.roots == s.roots
  {
    assert IsData(s.mem, f);
  }

  /** The page itself keeps its contents and has the new rights. */
  lemma ReflagOwnView(s: State, s': State, c: Install)
    requires Inv(s) && Inv(s') && ReflagStep(s, s', c) && |c.p| + 1 == LEVELS
    ensures Mapped(s, c.root, c.Path()) && Mapped(s', c.root, c.Path())
    ensures View(s', c.root, c.Path()) == Page(View(s, c.root, c.Path()).bytes, RightsOf(c.e))
  {
    assert c in Reflags(s, s');
    var q := c.Path();
    ReflagEntries(s, s', c, c.root, q);
    assert Reaches(s, c.root, q, Walk(s.mem, c.root, q).value);
    ReflagPage(s, s', c, c.root, q, Walk(s.mem, c.root, q).value);
    LeafDecides(s', c.root, q);
  }

  /** Flags of a table entry change nobody's rights: a page is for users only if its
      own entry says so.  Flags of a leaf change the rights to that one page. */
  lemma ReflagViews(s: State, s': State, c: Install)
    requires Inv(s) && ReflagStep(s, s', c)
    ensures |c.p| + 1 < LEVELS ==> AllViews(s') == AllViews(s)
    ensures |c.p| + 1 == LEVELS ==> (c.root, c.Path()) in AllViews(s)
    ensures |c.p| + 1 == LEVELS ==>
      AllViews(s') == Reflagged(AllViews(s), c.root, c.Path(), RightsOf(c.e))
  {
    ReflagKeepsInv(s, s', c);
    if |c.p| + 1 == LEVELS {
      ReflagOwnView(s, s', c);
      InViews(s, c.root, c.Path());
    }
    hide Inv, ReflagStep, AllViews, Agree, Reflagged;
    var expected := if |c.p| + 1 < LEVELS then AllViews(s)
      else Reflagged(AllViews(s), c.root, c.Path(), RightsOf(c.e));
    forall r: nat, q: seq<nat> ensures Agree(AllViews(s'), expected, r, q) {
      ReflagAgrees(s, s', c, r, q, expected);
    }
    ViewsExtensional(AllViews(s'), expected);
  }

  lemma ReflagAgrees(s: State, s': State, c: Install, r: nat, q: seq<nat>, expected: Views)
    requires Inv(s) && Inv(s') && ReflagStep(s, s', c)
    requires expected == if |c.p| + 1 < LEVELS then AllViews(s)
      else Reflagged(AllViews(s), c.root, c.Path(), RightsOf(c.e))
    ensures Agree(AllViews(s'), expected, r, q)
  {
    hide Inv, ReflagStep, AllViews, View, OwnTable;
    ReflagBasics(s, s', c);
    InViews(s, r, q);
    InViews(s', r, q);
    if c.IsNew(r, q) && |c.p| + 1 == LEVELS {
      ReflagOwnView(s, s', c);
    } else if r in s.roots && PagePath(q) {
      ReflagOtherView(s, s', c, r, q);
    }
  }

  lemma ReflagBasics(s: State, s': State, c: Install)
    requires ReflagStep(s, s', c)
    ensures s'.roots == s.roots && |c.Path()| == |c.p| + 1 <= LEVELS
  {}

  /** What new flags do to the rights of one page. */
  ghost function Reflagged(v: Views, r: nat, q: seq<nat>, a: Rights): Views {
    if (r, q) in v then v[(r, q) := Page(v[(r, q)].bytes, a)] else v
  }
}
