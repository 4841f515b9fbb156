/**
 The remaining changes to address spaces: a new top-level table, a new entry in a
 table of one's own, widening a table entry to user access, and a store to a page.
 */
module CowMap {
  import opened Basics
  import opened PageTables
  import opened AddressSpaces

  // ------------------------------------------------------ new address space

  /** A zeroed page, read as a table. */
  function EmptyTable(): Frame {
    Table(seq(ENTRIES, i => EMPTY))
  }

  /** The table that `newPageTable` builds from the current one. */
  ghost predicate NewRootStep(s: State, s': State, current: nat, root: nat) {
    && current in s.roots && IsTable(s.mem, current) && root !in s.used && root < |s.mem|
    && |s'.mem| == |s.mem| && |s'.refs| == |s.refs| == |s.mem|
    && (forall f :: 0 <= f < |s.mem| && f != root ==> s'.mem[f] == s.mem[f] && s'.refs[f] == s.refs[f])
    && IsTable(s'.mem, root) && s'.refs[root] == 1
    && (forall i :: 0 <= i < USER_ENTRIES ==> s'.mem[root].es[i] == EMPTY)
    && (forall i :: USER_ENTRIES <= i < RECURSIVE_ENTRY ==> s'.mem[root].es[i] == s.mem[current].es[i])
    && s'.mem[root].es[RECURSIVE_ENTRY] == s.mem[current].es[RECURSIVE_ENTRY].(frame := root)
    && s'.roots == s.roots + {root} && s'.used == s.used + {root} && s'.reserved == s.reserved
  }

  /** The first n entries zeroed. */
  function Emptied(es: seq<Entry>, n: nat): (r: seq<Entry>)
    ensures |r| == |es|
  {
    seq(|es|, i requires 0 <= i < |es| => if i < n then EMPTY else es[i])
  }

  lemma EmptiedNone(es: seq<Entry>)
    ensures Emptied(es, 0) == es
  {}

  lemma EmptiedNext(es: seq<Entry>, i: nat)
    requires i < |es|
    ensures Emptied(es, i + 1) == Emptied(es, i)[i := EMPTY]
  {}

  lemma TopIsThere(s: State, r: nat)
    requires Inv(s) && r in s.roots
    ensures IsTable(s.mem, r) && r in s.used && |s.refs| == |s.mem| && 0 in s.used
    ensures s.mem[r].es[RECURSIVE_ENTRY].present && s.mem[r].es[RECURSIVE_ENTRY].frame == r
  {}

  lemma BuiltNewRoot(s: State, s': State, current: nat, root: nat)
    requires current in s.roots && IsTable(s.mem, current) && root !in s.used && root < |s.mem| == |s.refs|
      && current in s.used
    requires var es := Emptied(s.mem[current].es, USER_ENTRIES);
      s' == s.(mem := s.mem[root := Table(es[RECURSIVE_ENTRY := es[RECURSIVE_ENTRY].(frame := root)])],
               refs := s.refs[root := 1], used := s.used + {root}, roots := s.roots + {root})
    ensures NewRootStep(s, s', current, root)
  {}

  ghost function NewRoots(s: State, s': State): iset<(nat, nat)> {
    iset current, root | RootsOk(s) && Typed(s) && NewRootStep(s, s', current, root) :: (current, root)
  }

  lemma {:induction false} NewRootEntries(s: State, s': State, current: nat, root: nat, r: nat, p: seq<nat>)
    requires (current, root) in NewRoots(s, s')
    requires (r in s.roots || r == root) && UserPath(p) && p != []
    ensures Walk(s'.mem, r, p) == if r == root then None else Walk(s.mem, r, p)
    ensures Ent(s'.mem, r, p) == if r == root then None else Ent(s.mem, r, p)
    decreases |p|
  {
    var front, i := p[..|p| - 1], p[|p| - 1];
    assert p == front + [i];
    WalkSnoc(s.mem, r, front, i);
    WalkSnoc(s'.mem, r, front, i);
    if front == [] {
      assert p[0] == i;
    } else {
      NewRootEntries(s, s', current, root, r, front);
      if r != root && Walk(s.mem, r, front).Some? {
        assert Reaches(s, r, front, Walk(s.mem, r, front).value);
      }
    }
  }

  lemma NewRootReaches(s: State, s': State, current: nat, root: nat, r: nat, p: seq<nat>, f: nat)
    requires (current, root) in NewRoots(s, s') && p != []
    ensures Reaches(s', r, p, f) <==> Reaches(s, r, p, f)
  {
    if (r in s.roots || r == root) && UserPath(p) { NewRootEntries(s, s', current, root, r, p); }
  }

  lemma NewRootSelects(s: State, s': State, current: nat, root: nat, r: nat, p: seq<nat>, e: Entry)
    requires (current, root) in NewRoots(s, s') && p != []
    ensures Selects(s', r, p, e) <==> Selects(s, r, p, e)
  {
    if (r in s.roots || r == root) && UserPath(p) { NewRootEntries(s, s', current, root, r, p); }
  }

  lemma NewRootRoots(s: State, s': State, current: nat, root: nat)
    requires RootsOk(s) && KernelHalf(s) && NewRootStep(s, s', current, root)
    ensures RootsOk(s') && KernelHalf(s')
  {
    forall r | r in s.roots ensures KeepsUpper(s, s', r) {}
    FramesInRange(s);
    hide RootsOk, KernelHalf, KeepsUpper;
    RootsGrow(s, s', current, root);
  }

  lemma NewRootShape(s: State, s': State, current: nat, root: nat)
    requires Inv(s) && NewRootStep(s, s', current, root)
    ensures Typed(s') && Trees(s')
  {
    assert (current, root) in NewRoots(s, s');
    forall r: nat, p: seq<nat>, f: nat | Reaches(s', r, p, f) && p != [] ensures Reaches(s, r, p, f) {
      NewRootReaches(s, s', current, root, r, p, f);
    }
  }

  lemma NewRootFlags(s: State, s': State, current: nat, root: nat)
    requires Inv(s) && NewRootStep(s, s', current, root)
    ensures CowReadOnly(s') && CowDown(s') && FlagsUp(s')
  {
    assert (current, root) in NewRoots(s, s');
    hide Inv, NewRootStep, CowReadOnly, CowDown, FlagsUp, NewRoots;
    FlagParts(s);
    forall r: nat, p: seq<nat>, e ensures Selects(s', r, p, e) ==> Selects(s, r, p, e) {
      if Selects(s', r, p, e) { NewRootSelects(s, s', current, root, r, p, e); }
    }
    FewerEntries(s, s');
  }

  lemma NewRootPrivate(s: State, s': State, current: nat, root: nat)
    requires Inv(s) && NewRootStep(s, s', current, root)
    ensures Private(s')
  {
    assert (current, root) in NewRoots(s, s');
    NewRootShape(s, s', current, root);
    forall r: nat, p: seq<nat>, e, r': nat, p': seq<nat> | Selects(s', r, p, e) && !e.cow
      && Reaches(s', r', p', e.frame)
      ensures r' == r && p' == p
    {
      assert Reaches(s', r, p, e.frame);
      assert p' != [];
      NewRootSelects(s, s', current, root, r, p, e);
      NewRootReaches(s, s', current, root, r', p', e.frame);
    }
  }

  lemma NewRootCounted(s: State, s': State, current: nat, root: nat)
    requires Inv(s) && NewRootStep(s, s', current, root)
    ensures Counted(s')
  {
    assert (current, root) in NewRoots(s, s');
    forall f: nat ensures Paths(s', f) == Paths(s, f) {
      forall r: nat, p: seq<nat> ensures (r, p) in Paths(s', f) <==> (r, p) in Paths(s, f) {
        InPaths(s, f, r, p);
        InPaths(s', f, r, p);
        if p != [] { NewRootReaches(s, s', current, root, r, p, f); }
      }
    }
  }

  lemma NewRootKeepsInv(s: State, s': State, current: nat, root: nat)
    requires Inv(s) && NewRootStep(s, s', current, root)
    ensures Inv(s')
  {
    NewRootRoots(s, s', current, root);
    NewRootShape(s, s', current, root);
    NewRootFlags(s, s', current, root);
    NewRootPrivate(s, s', current, root);
    NewRootCounted(s, s', current, root);
  }

  lemma NewRootView(s: State, s': State, current: nat, root: nat, r: nat, q: seq<nat>)
    requires (current, root) in NewRoots(s, s')
    ensures SameViewAt(s, s', r, q)
  {
    if (r in s.roots || r == root) && PagePath(q) {
      NewRootEntries(s, s', current, root, r, q);
      if r in s.roots {
        forall j | 1 <= j <= LEVELS ensures SameAccess(Ent(s.mem, r, q[..j]), Ent(s'.mem, r, q[..j])) {
          NewRootEntries(s, s', current, root, r, q[..j]);
        }
        if Walk(s.mem, r, q).Some? { assert Reaches(s, r, q, Walk(s.mem, r, q).value); }
        SameView(s, r, s', r, q);
      }
    }
  }

  /** A new address space maps nothing and changes no view. */
  lemma NewRootKeepsViews(s: State, s': State, current: nat, root: nat)
    requires Inv(s) && NewRootStep(s, s', current, root)
    ensures AllViews(s') == AllViews(s)
  {
    assert (current, root) in NewRoots(s, s');
    forall r: nat, q: seq<nat> ensures Agree(AllViews(s'), AllViews(s), r, q) {
      NewRootView(s, s', current, root, r, q);
      InViews(s, r, q);
      InViews(s', r, q);
    }
    ViewsExtensional(AllViews(s'), AllViews(s));
  }

  // ------------------------------------------------------ leaf flags rule

  /** In a well-formed state the leaf entry alone decides the rights to a page. */
  lemma {:induction false} UserAbove(s: State, r: nat, q: seq<nat>, j: nat)
    requires FlagsUp(s) && r in s.roots && PagePath(q) && 1 <= j <= LEVELS
    requires Ent(s.mem, r, q).Some? && Ent(s.mem, r, q).value.user
    ensures Ent(s.mem, r, q[..j]).Some? && Ent(s.mem, r, q[..j]).value.user
    decreases LEVELS - j
  {
    if j == LEVELS {
      assert q[..j] == q;
    } else {
      UserAbove(s, r, q, j + 1);
      assert q[..j + 1] == q[..j] + [q[j]];
      WalkSnoc(s.mem, r, q[..j], q[j]);
      assert Selects(s, r, q[..j], Ent(s.mem, r, q[..j]).value);
      assert Selects(s, r, q[..j] + [q[j]], Ent(s.mem, r, q[..j + 1]).value);
    }
  }

  lemma LeafDecides(s: State, r: nat, q: seq<nat>)
    requires FlagsUp(s) && r in s.roots && PagePath(q) && Ent(s.mem, r, q).Some?
    ensures UserAccess(s.mem, r, q) <==> Ent(s.mem, r, q).value.user
    ensures WriteAccess(s.mem, r, q) <==> Ent(s.mem, r, q).value.EffectivelyWritable()
    ensures ExecAccess(s.mem, r, q) <==> !Ent(s.mem, r, q).value.noExecute
  {
    assert q[..LEVELS] == q;
    forall j | 1 <= j <= LEVELS
      ensures Ent(s.mem, r, q[..j]).Some?
      ensures Ent(s.mem, r, q).value.user ==> Ent(s.mem, r, q[..j]).value.user
      ensures j < LEVELS ==> Ent(s.mem, r, q[..j]).value.PassesOn()
    {
      assert Walk(s.mem, r, q).Some?;
      WalkPrefix(s.mem, r, q, j);
      if Ent(s.mem, r, q).value.user { UserAbove(s, r, q, j); }
      assert Selects(s, r, q[..j], Ent(s.mem, r, q[..j]).value);
    }
  }

  // --------------------------------------------------- changes of one frame

  /** An entry with the same target and copy-on-write state; nothing shared becomes writable. */
  predicate SameTarget(e: Entry, e': Entry) {
    e'.frame == e.frame && e'.cow == e.cow && (e.cow && !e.writable ==> !e'.writable)
  }

  /** An entry of s that e could come from by a change of flags. */
  ghost predicate ComesFrom(s: State, r: nat, p: seq<nat>, e: Entry) {
    exists e0 :: Selects(s, r, p, e0) && SameTarget(e0, e)
      && (|p| < LEVELS && e0.PassesOn() ==> e.PassesOn())
  }

  /** The same frames in use, each of the same kind. */
  ghost predicate SameFrames(s: State, s': State) {
    && s'.roots == s.roots && s'.used == s.used && s'.reserved == s.reserved && s'.refs == s.refs
    && |s'.mem| == |s.mem|
    && (forall f :: f in s.used ==>
      (IsTable(s.mem, f) ==> IsTable(s'.mem, f)) && (IsData(s.mem, f) ==> IsData(s'.mem, f)))
  }

  /** s' has the walks, counts and frames of s; entries may change flags. */
  ghost predicate SameShape(s: State, s': State) {
    && SameFrames(s, s')
    && (forall r, p, f :: Reaches(s', r, p, f) <==> Reaches(s, r, p, f))
    && (forall r, p, e | Selects(s', r, p, e) :: ComesFrom(s, r, p, e))
  }

  lemma SameShapeKeepsInv(s: State, s': State)
    requires Inv(s) && SameShape(s, s') && RootsOk(s') && KernelHalf(s')
    requires forall r, p, e, i, e' | Selects(s', r, p, e) && Selects(s', r, p + [i], e') :: e'.user ==> e.user
    ensures Inv(s')
  {
    SameShapeFlags(s, s');
    forall f: nat ensures Paths(s', f) == Paths(s, f) {
      forall r: nat, p: seq<nat> ensures (r, p) in Paths(s', f) <==> (r, p) in Paths(s, f) {
        InPaths(s, f, r, p);
        InPaths(s', f, r, p);
      }
    }
  }

  lemma SameShapeFlags(s: State, s': State)
    requires Inv(s) && SameShape(s, s')
    ensures CowReadOnly(s') && CowDown(s') && Private(s')
    ensures forall r, p, e | Selects(s', r, p, e) && |p| < LEVELS :: e.PassesOn()
  {}

  // --------------------------------------------------------------- a store

  /** A byte of the frame behind page q of r is written. */
  ghost predicate PageWrite(s: State, s': State, r: nat, q: seq<nat>, offset: nat, b: bv8) {
    && Mapped(s, r, q) && offset < PAGE_SIZE
    && var f := Walk(s.mem, r, q).value;
       s' == s.(mem := s.mem[f := Data(s.mem[f].bytes[offset := b])])
  }

  /** A user store that the hardware lets through. */
  ghost predicate StoreStep(s: State, s': State, r: nat, q: seq<nat>, offset: nat, b: bv8) {
    PageWrite(s, s', r, q, offset, b) && !Ent(s.mem, r, q).value.cow
  }

  ghost function Stored(v: Views, r: nat, q: seq<nat>, offset: nat, b: bv8): Views
    requires (r, q) in v && offset < |v[(r, q)].bytes|
  {
    v[(r, q) := v[(r, q)].(bytes := v[(r, q)].bytes[offset := b])]
  }

  lemma {:induction false} StoreEntries(s: State, s': State, r: nat, q: seq<nat>, offset: nat, b: bv8, r': nat,
      p: seq<nat>)
    requires Typed(s) && RootsOk(s) && PageWrite(s, s', r, q, offset, b)
    requires r' in s.roots && UserPath(p)
    ensures Walk(s'.mem, r', p) == Walk(s.mem, r', p)
    ensures p != [] ==> Ent(s'.mem, r', p) == Ent(s.mem, r', p)
    decreases |p|
  {
    if p != [] {
      var front := p[..|p| - 1];
      StoreEntries(s, s', r, q, offset, b, r', front);
      if Walk(s.mem, r', front).Some? {
        var u := Walk(s.mem, r', front).value;
        assert Reaches(s, r', front, u);
        assert s'.mem[u] == s.mem[u];
      }
    }
  }

  lemma StoreKeepsInv(s: State, s': State, r: nat, q: seq<nat>, offset: nat, b: bv8)
    requires Inv(s) && StoreStep(s, s', r, q, offset, b)
    ensures Inv(s')
  {
    StoreFrames(s, s', r, q, offset, b);
    hide Inv, StoreStep;
    InvParts(s);
    forall r': nat, p: seq<nat>, f: nat ensures Reaches(s', r', p, f) <==> Reaches(s, r', p, f) {
      if r' in s.roots && UserPath(p) { StoreEntries(s, s', r, q, offset, b, r', p); }
    }
    forall r': nat, p: seq<nat>, e ensures Selects(s', r', p, e) <==> Selects(s, r', p, e) {
      if r' in s.roots && UserPath(p) { StoreEntries(s, s', r, q, offset, b, r', p); }
    }
    forall r', p, e | Selects(s', r', p, e) ensures ComesFrom(s, r', p, e) {
      assert Selects(s, r', p, e) && SameTarget(e, e);
    }
    FlagParts(s);
    SameShapeKeepsInv(s, s');
  }

  lemma StoreFrames(s: State, s': State, r: nat, q: seq<nat>, offset: nat, b: bv8)
    requires RootsOk(s) && KernelHalf(s) && Typed(s) && StoreStep(s, s', r, q, offset, b)
    ensures SameFrames(s, s') && RootsOk(s') && KernelHalf(s')
  {
    assert Reaches(s, r, q, Walk(s.mem, r, q).value);
    forall r' | r' in s.roots ensures KeepsUpper(s, s', r') {}
    FramesInRange(s);
    hide RootsOk, KernelHalf, KeepsUpper;
    RootsKept(s, s');
  }

  lemma StoreOtherView(s: State, s': State, r: nat, q: seq<nat>, offset: nat, b: bv8, r': nat, q': seq<nat>)
    requires Inv(s) && PageWrite(s, s', r, q, offset, b) && r' in s.roots && PagePath(q')
    requires Walk(s.mem, r', q') != Walk(s.mem, r, q)
    ensures SameViewAt(s, s', r', q')
  {
    StoreElsewhere(s, s', r, q, offset, b, r', q');
    hide Inv, PageWrite;
    InvParts(s);
    forall j | 1 <= j <= LEVELS ensures SameAccess(Ent(s.mem, r', q'[..j]), Ent(s'.mem, r', q'[..j])) {
      StoreEntries(s, s', r, q, offset, b, r', q'[..j]);
    }
    StoreEntries(s, s', r, q, offset, b, r', q');
    SameView(s, r', s', r', q');
  }

  lemma StoreElsewhere(s: State, s': State, r: nat, q: seq<nat>, offset: nat, b: bv8, r': nat, q': seq<nat>)
    requires Inv(s) && PageWrite(s, s', r, q, offset, b) && r' in s.roots && PagePath(q')
    requires Walk(s.mem, r', q') != Walk(s.mem, r, q)
    ensures SameContents(s, r', s', r', q') && s'.roots == s.roots
  {
    StoreEntries(s, s', r, q, offset, b, r', q');
    if Walk(s.mem, r', q').Some? {
      assert Reaches(s, r', q', Walk(s.mem, r', q').value);
    }
  }

  /** Nothing else is on the frame behind an entry that is not copy-on-write. */
  lemma OnOtherFrame(s: State, r: nat, q: seq<nat>, r': nat, q': seq<nat>)
    requires Inv(s) && Mapped(s, r, q) && !Ent(s.mem, r, q).value.cow && r' in s.roots && PagePath(q')
    requires (r', q') != (r, q)
    ensures Walk(s.mem, r', q') != Walk(s.mem, r, q)
  {
    var f := Walk(s.mem, r, q).value;
    assert Selects(s, r, q, Ent(s.mem, r, q).value) && Reaches(s, r, q, f);
    assert Walk(s.mem, r', q') == Some(f) ==> Reaches(s, r', q', f);
  }

  lemma StoreOwnView(s: State, s': State, r: nat, q: seq<nat>, offset: nat, b: bv8)
    requires Inv(s) && PageWrite(s, s', r, q, offset, b)
    ensures Mapped(s', r, q) && View(s', r, q) == View(s, r, q).(bytes := View(s, r, q).bytes[offset := b])
  {
    hide Inv;
    InvParts(s);
    forall j | 1 <= j <= LEVELS ensures SameAccess(Ent(s.mem, r, q[..j]), Ent(s'.mem, r, q[..j])) {
      StoreEntries(s, s', r, q, offset, b, r, q[..j]);
    }
    StoreEntries(s, s', r, q, offset, b, r, q);
    SameRights(s, r, s', r, q);
  }

  /** A write to a frame that no other page is on changes the writer's view of one byte and
      no other view. */
  lemma WriteChangesOneView(s: State, s': State, r: nat, q: seq<nat>, offset: nat, b: bv8)
    requires Inv(s) && PageWrite(s, s', r, q, offset, b)
    requires forall r', q' | r' in s.roots && PagePath(q') && (r', q') != (r, q) ::
      Walk(s.mem, r', q') != Walk(s.mem, r, q)
    ensures (r, q) in AllViews(s) && offset < |AllViews(s)[(r, q)].bytes|
    ensures AllViews(s') == Stored(AllViews(s), r, q, offset, b)
  {
    InViews(s, r, q);
    forall r': nat, q': seq<nat> ensures Agree(AllViews(s'), Stored(AllViews(s), r, q, offset, b), r', q') {
      if (r', q') == (r, q) {
        StoreOwnView(s, s', r, q, offset, b);
      } else if r' in s.roots && PagePath(q') {
        StoreOtherView(s, s', r, q, offset, b, r', q');
      }
      InViews(s, r', q');
      InViews(s', r', q');
    }
    ViewsExtensional(AllViews(s'), Stored(AllViews(s), r, q, offset, b));
  }

  /** That is so for every store the processor lets through. */
  lemma StoreChangesOneView(s: State, s': State, r: nat, q: seq<nat>, offset: nat, b: bv8)
    requires Inv(s) && StoreStep(s, s', r, q, offset, b)
    ensures (r, q) in AllViews(s) && offset < |AllViews(s)[(r, q)].bytes|
    ensures AllViews(s') == Stored(AllViews(s), r, q, offset, b)
  {
    hide Inv, PageWrite, AllViews, Stored;
    StoreParts(s, s', r, q, offset, b);
    forall r', q' | r' in s.roots && PagePath(q') && (r', q') != (r, q)
      ensures Walk(s.mem, r', q') != Walk(s.mem, r, q)
    {
      OnOtherFrame(s, r, q, r', q');
    }
    WriteChangesOneView(s, s', r, q, offset, b);
  }

  lemma StoreParts(s: State, s': State, r: nat, q: seq<nat>, offset: nat, b: bv8)
    requires PageWrite(s, s', r, q, offset, b)
    ensures Mapped(s, r, q)
  {}
}
