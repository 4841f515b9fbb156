/**
 The state of all address spaces: physical memory, reference counts, and the
 top-level tables created so far.  `Inv` is the invariant every kernel operation
 keeps; `Views` is what the processes can observe.
 */
module AddressSpaces {
  import opened PageTables

  /** `reserved` holds the frames in use before the first address space exists:
      frame 0, the kernel image and the kernel's own tables.  They never take
      part in copy-on-write. */
  datatype State = State(
    mem: seq<Frame>,
    refs: seq<nat>,
    used: set<nat>,
    roots: set<nat>,
    reserved: set<nat>)

  /** The frames nobody uses. */
  ghost function FreeFrames(s: State): set<nat> {
    set f: nat | f < |s.mem| && f !in s.used
  }

  // ---------------------------------------------------------------- paths

  /** The first n of the four indices. */
  function Prefix(n: nat, i4: nat, i3: nat, i2: nat, i1: nat): seq<nat> {
    if n <= LEVELS then [i4, i3, i2, i1][..n] else []
  }

  /** The (root, index path) pairs that reach frame f. */
  ghost function Paths(s: State, f: nat): set<(nat, seq<nat>)> {
    set r, n, i4, i3, i2, i1 |
      && r in s.roots && 1 <= n <= LEVELS
      && 0 <= i4 < USER_ENTRIES && 0 <= i3 < ENTRIES && 0 <= i2 < ENTRIES && 0 <= i1 < ENTRIES
      && Walk(s.mem, r, Prefix(n, i4, i3, i2, i1)) == Some(f)
    :: (r, Prefix(n, i4, i3, i2, i1))
  }

  lemma InPaths(s: State, f: nat, r: nat, p: seq<nat>)
    ensures (r, p) in Paths(s, f) <==> p != [] && Reaches(s, r, p, f)
  {
    if p != [] && Reaches(s, r, p, f) {
      WalkPrefix(s.mem, r, p, |p|);
      var q := p + [0, 0, 0];
      assert p == Prefix(|p|, q[0], q[1], q[2], q[3]);
    }
  }

  // ------------------------------------------------------------ invariant

  ghost predicate Reaches(s: State, r: nat, p: seq<nat>, f: nat) {
    r in s.roots && UserPath(p) && Walk(s.mem, r, p) == Some(f)
  }

  ghost predicate Selects(s: State, r: nat, p: seq<nat>, e: Entry) {
    r in s.roots && UserPath(p) && p != [] && Ent(s.mem, r, p) == Some(e)
  }

  ghost predicate SameKernel(mem: seq<Frame>, r: nat, r': nat) {
    && IsTable(mem, r) && IsTable(mem, r')
    && forall i | USER_ENTRIES <= i < RECURSIVE_ENTRY :: mem[r].es[i] == mem[r'].es[i]
  }

  /** Top-level tables: kernel half shared by all, last entry maps the table itself. */
  ghost predicate RootsOk(s: State) {
    && |s.refs| == |s.mem|
    && 0 in s.reserved
    && s.reserved + s.roots <= s.used
    && s.reserved !! s.roots
    && (forall f :: f in s.used ==> f < |s.mem|)
    && (forall r :: r in s.roots ==> IsTable(s.mem, r))
    && (forall r :: r in s.roots ==> s.mem[r].es[RECURSIVE_ENTRY].present && s.mem[r].es[RECURSIVE_ENTRY].frame == r)
    && (forall r, r' | r in s.roots && r' in s.roots :: SameKernel(s.mem, r, r'))
  }

  /** Paths through the kernel half: to tables up to three steps down, to pages with four. */
  predicate KernelPath(p: seq<nat>) {
    0 < |p| <= LEVELS && USER_ENTRIES <= p[0] < RECURSIVE_ENTRY
  }

  ghost predicate KernelReaches(s: State, r: nat, p: seq<nat>, f: nat) {
    r in s.roots && KernelPath(p) && Walk(s.mem, r, p) == Some(f)
  }

  /** The upper half of a top-level table is there from the start, and denies user access. */
  ghost predicate KernelTop(mem: seq<Frame>, t: nat) {
    && IsTable(mem, t)
    && forall i | USER_ENTRIES <= i < ENTRIES :: mem[t].es[i].present && !mem[t].es[i].user
  }

  /** The kernel half of every address space: denied to users and never copied on write.
      Its tables are reserved frames, each reached by one path. */
  ghost predicate KernelHalf(s: State) {
    && (forall r :: r in s.roots ==> KernelTop(s.mem, r))
    && (forall r, p, t | KernelReaches(s, r, p, t) && |p| < LEVELS :: t in s.reserved && IsTable(s.mem, t))
    && (forall r, p, p', t | KernelReaches(s, r, p, t) && KernelReaches(s, r, p', t) && |p| < LEVELS && |p'| < LEVELS ::
          p == p')
    && (forall r, p | r in s.roots && KernelPath(p) && Ent(s.mem, r, p).Some? :: !Ent(s.mem, r, p).value.cow)
  }

  /** Every frame below a root is an allocated, non-reserved frame of the right kind. */
  ghost predicate Typed(s: State) {
    forall r, p, f | Reaches(s, r, p, f) && p != [] ::
      f in s.used && f !in s.reserved && f !in s.roots && (if |p| < LEVELS then IsTable(s.mem, f) else IsData(s.mem, f))
  }

  /** One address space reaches a frame in at most one way. */
  ghost predicate Trees(s: State) {
    forall r, p, p', f | Reaches(s, r, p, f) && Reaches(s, r, p', f) :: p == p'
  }

  ghost predicate CowReadOnly(s: State) {
    forall r, p, e | Selects(s, r, p, e) :: e.cow ==> !e.writable
  }

  /** Below a copy-on-write entry every present entry is copy-on-write. */
  ghost predicate CowDown(s: State) {
    forall r, p, e, i, e' | Selects(s, r, p, e) && Selects(s, r, p + [i], e') :: e.cow ==> e'.cow
  }

  /** The frame behind an entry that is not copy-on-write has exactly one path. */
  ghost predicate Private(s: State) {
    forall r, p, e, r', p' | Selects(s, r, p, e) && !e.cow && Reaches(s, r', p', e.frame) :: r' == r && p' == p
  }

  /** User access is never granted below a table that denies it, and tables
      themselves never deny writing or execution. */
  ghost predicate FlagsUp(s: State) {
    && (forall r, p, e, i, e' | Selects(s, r, p, e) && Selects(s, r, p + [i], e') :: e'.user ==> e.user)
    && (forall r, p, e | Selects(s, r, p, e) && |p| < LEVELS :: e.PassesOn())
  }

  /** Reference counts are path counts; no allocated frame is without a path. */
  ghost predicate Counted(s: State) {
    && (forall f :: f in s.used && f !in s.reserved && f !in s.roots ==>
      f < |s.refs| && s.refs[f] == |Paths(s, f)| && s.refs[f] > 0)
    && (forall r :: r in s.roots ==> r < |s.refs| && s.refs[r] == 1)
  }

  ghost predicate Inv(s: State) {
    && RootsOk(s) && KernelHalf(s) && Typed(s) && Trees(s)
    && CowReadOnly(s) && CowDown(s) && Private(s) && FlagsUp(s) && Counted(s)
  }

  /** Nothing that is in use has changed. */
  ghost predicate Unchanged(s: State, s': State) {
    && s'.roots == s.roots && s'.used == s.used && s'.reserved == s.reserved
    && |s'.mem| == |s.mem| && |s'.refs| == |s.refs|
    && (forall f :: f in s.used && f < |s.mem| ==> s'.mem[f] == s.mem[f])
    && (forall f :: f in s.used && f < |s.refs| ==> s'.refs[f] == s.refs[f])
  }

  lemma InvParts(s: State)
    requires Inv(s)
    ensures RootsOk(s) && KernelHalf(s) && Typed(s) && Trees(s) && CowDown(s) && CowReadOnly(s)
  {}

  /** The upper half of a top-level table stays. */
  ghost predicate KeepsUpper(s: State, s': State, r: nat) {
    && IsTable(s.mem, r) && IsTable(s'.mem, r)
    && forall i | USER_ENTRIES <= i < ENTRIES :: s'.mem[r].es[i] == s.mem[r].es[i]
  }

  /** The new top-level table has the upper half of the one at `from`, but maps itself. */
  ghost predicate NewUpper(s: State, s': State, from: nat, root: nat) {
    && IsTable(s.mem, from) && IsTable(s'.mem, root)
    && (forall i | USER_ENTRIES <= i < RECURSIVE_ENTRY :: s'.mem[root].es[i] == s.mem[from].es[i])
    && s'.mem[root].es[RECURSIVE_ENTRY] == s.mem[from].es[RECURSIVE_ENTRY].(frame := root)
  }

  /** A walk through kernel tables that stay, from a top-level table to one with the same
      upper half. */
  lemma {:induction false} KernelWalkKept(s: State, s': State, from: nat, r: nat, p: seq<nat>)
    requires KernelHalf(s) && from in s.roots && KernelPath(p) && |s'.mem| == |s.mem|
    requires forall f :: f in s.reserved ==> f < |s.mem| && s'.mem[f] == s.mem[f]
    requires NewUpper(s, s', from, r) || (r == from && KeepsUpper(s, s', r))
    ensures Walk(s'.mem, r, p) == Walk(s.mem, from, p) && Ent(s'.mem, r, p) == Ent(s.mem, from, p)
    decreases |p|
  {
    var front, i := p[..|p| - 1], p[|p| - 1];
    assert p == front + [i];
    WalkSnoc(s.mem, from, front, i);
    WalkSnoc(s'.mem, r, front, i);
    if front == [] {
      assert p[0] == i;
    } else {
      KernelWalkKept(s, s', from, r, front);
      if Walk(s.mem, from, front).Some? { assert KernelReaches(s, from, front, Walk(s.mem, from, front).value); }
    }
  }

  /** All address spaces have the same kernel half. */
  lemma {:induction false} KernelIsShared(s: State, r: nat, r': nat, p: seq<nat>)
    requires RootsOk(s) && r in s.roots && r' in s.roots && KernelPath(p)
    ensures Walk(s.mem, r, p) == Walk(s.mem, r', p) && Ent(s.mem, r, p) == Ent(s.mem, r', p)
    decreases |p|
  {
    var front, i := p[..|p| - 1], p[|p| - 1];
    assert p == front + [i];
    WalkSnoc(s.mem, r, front, i);
    WalkSnoc(s.mem, r', front, i);
    if front == [] {
      assert p[0] == i && SameKernel(s.mem, r, r');
    } else {
      KernelIsShared(s, r, r', front);
    }
  }

  /** Address space r' of s' has the kernel half of r in s. */
  ghost predicate SameKernelHalf(s: State, r: nat, s': State, r': nat) {
    forall p | KernelPath(p) :: Walk(s'.mem, r', p) == Walk(s.mem, r, p) && Ent(s'.mem, r', p) == Ent(s.mem, r, p)
  }

  lemma KernelHalfOf(s: State, s': State, from: nat, r: nat)
    requires KernelHalf(s) && from in s.roots && |s'.mem| == |s.mem|
    requires forall f :: f in s.reserved ==> f < |s.mem| && s'.mem[f] == s.mem[f]
    requires NewUpper(s, s', from, r) || (r == from && KeepsUpper(s, s', r))
    ensures KernelTop(s'.mem, r) && SameKernelHalf(s, from, s', r)
  {
    forall p | KernelPath(p)
      ensures Walk(s'.mem, r, p) == Walk(s.mem, from, p) && Ent(s'.mem, r, p) == Ent(s.mem, from, p)
    {
      KernelWalkKept(s, s', from, r, p);
    }
    assert KernelTop(s.mem, from);
  }

  ghost predicate HasKernelHalf(s: State, s': State, r: nat) {
    KernelTop(s'.mem, r) && exists r0 :: r0 in s.roots && SameKernelHalf(s, r0, s', r)
  }

  lemma KernelHalfFrom(s: State, s': State)
    requires KernelHalf(s) && s.reserved <= s'.reserved && |s'.mem| == |s.mem|
    requires forall f :: f in s.reserved ==> f < |s.mem| && s'.mem[f] == s.mem[f]
    requires forall r :: r in s'.roots ==> HasKernelHalf(s, s', r)
    ensures KernelHalf(s')
  {
    forall r, p, t | KernelReaches(s', r, p, t) && |p| < LEVELS ensures t in s'.reserved && IsTable(s'.mem, t) {
      assert HasKernelHalf(s, s', r);
      var r0 :| r0 in s.roots && SameKernelHalf(s, r0, s', r);
      assert KernelReaches(s, r0, p, t);
    }
    forall r, p, p', t | KernelReaches(s', r, p, t) && KernelReaches(s', r, p', t) && |p| < LEVELS && |p'| < LEVELS
      ensures p == p'
    {
      assert HasKernelHalf(s, s', r);
      var r0 :| r0 in s.roots && SameKernelHalf(s, r0, s', r);
      assert KernelReaches(s, r0, p, t) && KernelReaches(s, r0, p', t);
    }
    forall r, p | r in s'.roots && KernelPath(p) && Ent(s'.mem, r, p).Some? ensures !Ent(s'.mem, r, p).value.cow {
      assert HasKernelHalf(s, s', r);
      var r0 :| r0 in s.roots && SameKernelHalf(s, r0, s', r);
    }
  }

  /** Operations on the user half alone keep what top-level tables promise. */
  lemma RootsKept(s: State, s': State)
    requires RootsOk(s) && KernelHalf(s)
    requires s'.roots == s.roots && s'.reserved == s.reserved && |s'.mem| == |s.mem| == |s'.refs|
    requires s.reserved + s.roots <= s'.used && forall f :: f in s'.used ==> f < |s'.mem|
    requires forall f :: f in s.reserved ==> f < |s.mem| && s'.mem[f] == s.mem[f]
    requires forall r :: r in s.roots ==> KeepsUpper(s, s', r)
    ensures RootsOk(s') && KernelHalf(s')
  {
    forall r | r in s.roots
      ensures HasKernelHalf(s, s', r) && IsTable(s'.mem, r)
      ensures s'.mem[r].es[RECURSIVE_ENTRY].present && s'.mem[r].es[RECURSIVE_ENTRY].frame == r
    {
      TopKept(s, s', r, r);
    }
    hide KernelHalf, HasKernelHalf;
    KernelHalfFrom(s, s');
    forall r, r' | r in s.roots && r' in s.roots ensures SameKernel(s'.mem, r, r') {
      SameKernelKept(s, s', r, r', r, r');
    }
  }

  /** So do those that add a top-level table made from one that is there. */
  lemma RootsGrow(s: State, s': State, from: nat, root: nat)
    requires RootsOk(s) && KernelHalf(s) && from in s.roots && root !in s.used && root < |s.mem|
    requires s'.roots == s.roots + {root} && s'.reserved == s.reserved && |s'.mem| == |s.mem| == |s'.refs|
    requires s'.used == s.used + {root}
    requires forall f :: f in s.reserved ==> f < |s.mem| && s'.mem[f] == s.mem[f]
    requires (forall r :: r in s.roots ==> KeepsUpper(s, s', r)) && NewUpper(s, s', from, root)
    ensures RootsOk(s') && KernelHalf(s')
  {
    hide RootsOk, KernelHalf, HasKernelHalf, KeepsUpper, NewUpper;
    forall r | r in s'.roots
      ensures HasKernelHalf(s, s', r) && IsTable(s'.mem, r)
      ensures s'.mem[r].es[RECURSIVE_ENTRY].present && s'.mem[r].es[RECURSIVE_ENTRY].frame == r
    {
      TopKept(s, s', if r == root then from else r, r);
    }
    KernelHalfFrom(s, s');
    forall r, r' | r in s'.roots && r' in s'.roots ensures SameKernel(s'.mem, r, r') {
      RootsAlike(s, if r == root then from else r, if r' == root then from else r');
      SameKernelKept(s, s', if r == root then from else r, if r' == root then from else r', r, r');
    }
    GrownRoots(s, s', root);
  }

  lemma TopKept(s: State, s': State, from: nat, r: nat)
    requires RootsOk(s) && KernelHalf(s) && from in s.roots && |s'.mem| == |s.mem|
    requires forall f :: f in s.reserved ==> f < |s.mem| && s'.mem[f] == s.mem[f]
    requires NewUpper(s, s', from, r) || (r == from && KeepsUpper(s, s', r))
    ensures HasKernelHalf(s, s', r) && IsTable(s'.mem, r)
    ensures s'.mem[r].es[RECURSIVE_ENTRY].present && s'.mem[r].es[RECURSIVE_ENTRY].frame == r
  {
    hide KernelHalf, SameKernelHalf;
    KernelHalfOf(s, s', from, r);
  }

  lemma RootsAlike(s: State, r: nat, r': nat)
    requires RootsOk(s) && r in s.roots && r' in s.roots
    ensures SameKernel(s.mem, r, r')
  {}

  lemma GrownRoots(s: State, s': State, root: nat)
    requires RootsOk(s) && root !in s.used && root < |s.mem|
    requires s'.roots == s.roots + {root} && s'.reserved == s.reserved && |s'.mem| == |s.mem| == |s'.refs|
    requires s'.used == s.used + {root}
    requires forall r :: r in s'.roots ==>
      IsTable(s'.mem, r) && s'.mem[r].es[RECURSIVE_ENTRY].present && s'.mem[r].es[RECURSIVE_ENTRY].frame == r
    requires forall r, r' | r in s'.roots && r' in s'.roots :: SameKernel(s'.mem, r, r')
    ensures RootsOk(s')
  {}

  lemma SameKernelKept(s: State, s': State, r0: nat, r0': nat, r: nat, r': nat)
    requires SameKernel(s.mem, r0, r0')
    requires NewUpper(s, s', r0, r) || (r == r0 && KeepsUpper(s, s', r))
    requires NewUpper(s, s', r0', r') || (r' == r0' && KeepsUpper(s, s', r'))
    ensures SameKernel(s'.mem, r, r')
  {}

  lemma FramesInRange(s: State)
    requires RootsOk(s)
    ensures |s.refs| == |s.mem| && s.reserved <= s.used && forall f :: f in s.used ==> f < |s.mem|
  {}

  /** A state that selects no new entries keeps the rules about entry flags. */
  lemma FewerEntries(s: State, s': State)
    requires CowReadOnly(s) && CowDown(s) && FlagsUp(s)
    requires forall r, p, e :: Selects(s', r, p, e) ==> Selects(s, r, p, e)
    ensures CowReadOnly(s') && CowDown(s') && FlagsUp(s')
  {}

  lemma FlagParts(s: State)
    requires Inv(s)
    ensures CowReadOnly(s) && CowDown(s) && FlagsUp(s) && Private(s) && Counted(s)
  {}

  // ----------------------------------------------------------------- views

  /** What may be done with a page. */
  datatype Rights = Rights(user: bool, writable: bool, executable: bool)

  /** What a process can observe of one page. */
  datatype Page = Page(bytes: seq<bv8>, rights: Rights)

  predicate PagePath(q: seq<nat>) {
    |q| == LEVELS && q[0] < USER_ENTRIES
  }

  ghost predicate UserAccess(mem: seq<Frame>, r: nat, q: seq<nat>) {
    forall j :: 1 <= j <= |q| ==> Ent(mem, r, q[..j]).Some? && Ent(mem, r, q[..j]).value.user
  }

  ghost predicate WriteAccess(mem: seq<Frame>, r: nat, q: seq<nat>) {
    forall j :: 1 <= j <= |q| ==> Ent(mem, r, q[..j]).Some? && Ent(mem, r, q[..j]).value.EffectivelyWritable()
  }

  ghost predicate ExecAccess(mem: seq<Frame>, r: nat, q: seq<nat>) {
    forall j :: 1 <= j <= |q| ==> Ent(mem, r, q[..j]).Some? && !Ent(mem, r, q[..j]).value.noExecute
  }

  ghost predicate Mapped(s: State, r: nat, q: seq<nat>) {
    r in s.roots && PagePath(q) && Walk(s.mem, r, q).Some? && IsData(s.mem, Walk(s.mem, r, q).value)
  }

  ghost function View(s: State, r: nat, q: seq<nat>): Page
    requires Mapped(s, r, q)
  {
    Page(s.mem[Walk(s.mem, r, q).value].bytes,
         Rights(UserAccess(s.mem, r, q), WriteAccess(s.mem, r, q), ExecAccess(s.mem, r, q)))
  }

  /** Everything every process can observe. */
  type Views = imap<(nat, seq<nat>), Page>

  ghost function AllViews(s: State): Views {
    imap r, q | Mapped(s, r, q) :: (r, q) := View(s, r, q)
  }

  lemma InViews(s: State, r: nat, q: seq<nat>)
    ensures (r, q) in AllViews(s) <==> Mapped(s, r, q)
    ensures Mapped(s, r, q) ==> AllViews(s)[(r, q)] == View(s, r, q)
  {}

  /** What one process observes of one page. */
  ghost predicate Agree(a: Views, b: Views, r: nat, q: seq<nat>) {
    ((r, q) in a <==> (r, q) in b) && ((r, q) in a ==> a[(r, q)] == b[(r, q)])
  }

  lemma ViewsExtensional(a: Views, b: Views)
    requires forall r, q :: Agree(a, b, r, q)
    ensures a == b
  {
    forall x: (nat, seq<nat>) ensures (x in a <==> x in b) && (x in a ==> a[x] == b[x]) {
      assert Agree(a, b, x.0, x.1);
    }
  }

  /** Two entries grant the same access. */
  predicate SameAccess(e: Option<Entry>, e': Option<Entry>) {
    match (e, e')
    case (Some(x), Some(y)) =>
      x.user == y.user && x.EffectivelyWritable() == y.EffectivelyWritable() && x.noExecute == y.noExecute
    case (None, None) => true
    case _ => false
  }

  /** The page behind q has the same contents in both states, if there is one. */
  ghost predicate SameContents(s: State, r: nat, s': State, r': nat, q: seq<nat>) {
    match (Walk(s.mem, r, q), Walk(s'.mem, r', q))
    case (Some(f), Some(f')) => f < |s.mem| && f' < |s'.mem| && s'.mem[f'] == s.mem[f]
    case (None, None) => true
    case _ => false
  }

  lemma SameView(s: State, r: nat, s': State, r': nat, q: seq<nat>)
    requires r in s.roots && r' in s'.roots && PagePath(q)
    requires forall j :: 1 <= j <= LEVELS ==> SameAccess(Ent(s.mem, r, q[..j]), Ent(s'.mem, r', q[..j]))
    requires SameContents(s, r, s', r', q)
    ensures Mapped(s', r', q) <==> Mapped(s, r, q)
    ensures Mapped(s, r, q) ==> View(s', r', q) == View(s, r, q)
  {
    if Mapped(s, r, q) {
      SameRights(s, r, s', r', q);
    }
  }

  lemma SameRights(s: State, r: nat, s': State, r': nat, q: seq<nat>)
    requires PagePath(q)
    requires forall j :: 1 <= j <= LEVELS ==> SameAccess(Ent(s.mem, r, q[..j]), Ent(s'.mem, r', q[..j]))
    ensures UserAccess(s'.mem, r', q) <==> UserAccess(s.mem, r, q)
    ensures WriteAccess(s'.mem, r', q) <==> WriteAccess(s.mem, r, q)
    ensures ExecAccess(s'.mem, r', q) <==> ExecAccess(s.mem, r, q)
  {}

  ghost predicate SameViewAt(s: State, s': State, r: nat, q: seq<nat>) {
    (Mapped(s', r, q) <==> Mapped(s, r, q)) && (Mapped(s, r, q) ==> View(s', r, q) == View(s, r, q))
  }

  lemma SameViews(s: State, s': State)
    requires s'.roots == s.roots
    requires forall r, q | r in s.roots && PagePath(q) :: SameViewAt(s, s', r, q)
    ensures AllViews(s') == AllViews(s)
  {
    forall r: nat, q: seq<nat> ensures Agree(AllViews(s'), AllViews(s), r, q) {
      assert Mapped(s, r, q) || Mapped(s', r, q) ==> SameViewAt(s, s', r, q);
      InViews(s, r, q);
      InViews(s', r, q);
    }
    ViewsExtensional(AllViews(s'), AllViews(s));
  }

  // ------------------------------------------------------- counting helpers

  lemma TwoPaths(s: State, f: nat, r: nat, p: seq<nat>, r': nat, p': seq<nat>)
    requires Reaches(s, r, p, f) && Reaches(s, r', p', f) && p != [] && p' != [] && (r, p) != (r', p')
    ensures |Paths(s, f)| > 1
  {
    InPaths(s, f, r, p);
    InPaths(s, f, r', p');
    SubsetSize({(r, p), (r', p')}, Paths(s, f));
  }

  lemma SubsetSize<T>(a: set<T>, b: set<T>)
    requires a <= b
    ensures |a| <= |b|
  {
    assert b == a + (b - a);
  }

  /** f lies below root r within n levels. */
  ghost predicate Below(s: State, r: nat, n: nat, f: nat) {
    exists p :: Reaches(s, r, p, f) && p != [] && |p| <= n
  }

  lemma BelowIsUser(s: State, r: nat, n: nat, f: nat)
    requires Typed(s)
    ensures Below(s, r, n, f) ==> f in s.used && f !in s.reserved && f !in s.roots
  {}

  lemma {:induction false} OnePathEach(ps: set<(nat, seq<nat>)>, roots: set<nat>)
    requires forall x :: x in ps ==> x.0 in roots
    requires forall x, y :: x in ps && y in ps && x.0 == y.0 ==> x == y
    ensures |ps| <= |roots|
    decreases |ps|
  {
    if ps != {} {
      var x :| x in ps;
      OnePathEach(ps - {x}, roots - {x.0});
    }
  }

  lemma {:induction false} SetBelow(s: set<nat>, n: nat)
    requires forall x :: x in s ==> x < n
    ensures |s| <= n
  {
    if n > 0 {
      SetBelow(s - {n - 1}, n - 1);
      SubsetSize(s, (s - {n - 1}) + {n - 1});
    } else {
      assert s == {};
    }
  }

  /** No reference count exceeds the number of frames, so none overflows 64 bits. */
  lemma CountsAreBounded(s: State, f: nat)
    requires RootsOk(s) && Trees(s)
    ensures |Paths(s, f)| <= |s.mem|
  {
    forall x, y | x in Paths(s, f) && y in Paths(s, f) && x.0 == y.0 ensures x == y {
      InPaths(s, f, x.0, x.1);
      InPaths(s, f, y.0, y.1);
    }
    OnePathEach(Paths(s, f), s.roots);
    SetBelow(s.roots, |s.mem|);
  }
}
