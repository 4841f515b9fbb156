/**
 Whole runs.  The kernel's address spaces, with their shared tables and reference
 counts, behave like a machine that copies all of memory at every fork.
 */
module CowRuns {
  import opened Basics
  import opened PageTables
  import opened AddressSpaces
  import opened CowFault
  import opened CowFork
  import opened CowExit
  import opened CowMap
  import opened CowInstall
  import opened CowUnmap
  import opened KernelFrames

  // -------------------------------------------------- one attempted write

  /** The processor lets a user-mode write through. */
  ghost predicate HardwareAllows(s: State, r: nat, q: seq<nat>) {
    forall j :: 1 <= j <= |q| ==>
      && Ent(s.mem, r, q[..j]).Some?
      && Ent(s.mem, r, q[..j]).value.user
      && Ent(s.mem, r, q[..j]).value.writable
  }

  /** The handler's own checks on a user-mode write fault. */
  predicate CheckPasses(e: Option<Entry>) {
    e.Some? && e.value.user && (e.value.cow || e.value.writable)
  }

  ghost predicate ChecksPass(s: State, r: nat, q: seq<nat>) {
    forall j :: 1 <= j <= |q| ==> CheckPasses(Ent(s.mem, r, q[..j]))
  }

  /** Some handler run for path q of r takes s to s'. */
  ghost predicate Repaired(s: State, s': State, r: nat, q: seq<nat>) {
    exists c: Repair :: c.root == r && c.q == q && FaultStep(s, s', c)
  }

  /** At most one repair, after which the write succeeds or the process is killed.  The
      address may lie in either half; no check passes in the upper one. */
  ghost predicate WriteStep(s: State, s': State, r: nat, q: seq<nat>, offset: nat, b: bv8) {
    && r in s.roots && |q| == LEVELS && offset < PAGE_SIZE
    && exists s1 ::
         && (s1 == s || Repaired(s, s1, r, q))
         && if HardwareAllows(s1, r, q) then StoreStep(s1, s', r, q, offset, b)
            else !ChecksPass(s1, r, q) && ExitStep(s1, s', r)
  }

  // ------------------------------------------------------------ one mapping

  /** One level of the walk that creates missing tables. */
  ghost predicate TableStep(s: State, s': State, r: nat, p: seq<nat>, i: nat, user: bool) {
    || (exists t, e: Entry :: e.user == user && InstallStep(s, s', Install(r, p, i, t, e)))
    || (s' == s && !user)
    || (user && exists t: nat :: WidenStep(s, s', r, p, i, t))
  }

  /** Entry e gives exactly these rights. */
  predicate Gives(e: Entry, a: Rights) {
    e.user == a.user && e.writable == a.writable && e.noExecute == !a.executable
  }

  /** The leaf entry: a fresh frame, whose old contents show through. */
  ghost predicate PageStep(s: State, s': State, r: nat, q: seq<nat>, bytes: seq<bv8>, a: Rights) {
    PagePath(q) && exists t, e: Entry ::
      InstallStep(s, s', Install(r, q[..3], q[3], t, e)) && Gives(e, a)
      && s'.mem[e.frame] == Data(bytes)
  }

  ghost predicate TableSteps(s: State, s': State, r: nat, q: seq<nat>, user: bool)
    requires |q| == LEVELS
  {
    exists s1, s2 ::
      && TableStep(s, s1, r, q[..0], q[0], user)
      && TableStep(s1, s2, r, q[..1], q[1], user)
      && TableStep(s2, s', r, q[..2], q[2], user)
  }

  ghost predicate MapStep(s: State, s': State, r: nat, q: seq<nat>, bytes: seq<bv8>, a: Rights) {
    PagePath(q) && exists s1 :: TableSteps(s, s1, r, q, a.user) && PageStep(s1, s', r, q, bytes, a)
  }

  /** A present leaf that is not copy-on-write gets other flags. */
  ghost predicate LeafStep(s: State, s': State, r: nat, q: seq<nat>, a: Rights) {
    PagePath(q) && exists t: nat, e: Entry ::
      ReflagStep(s, s', Install(r, q[..3], q[3], t, e)) && !e.cow && Gives(e, a)
  }

  /** Mapping a page that is there already gives it other flags. */
  ghost predicate RemapStep(s: State, s': State, r: nat, q: seq<nat>, a: Rights) {
    PagePath(q) && exists s1 :: TableSteps(s, s1, r, q, a.user) && LeafStep(s1, s', r, q, a)
  }

  /** A managed page of a table of one's own is unmapped. */
  ghost predicate PageGone(s: State, s': State, r: nat, q: seq<nat>) {
    PagePath(q) && exists t: nat ::
      var c := Install(r, q[..3], q[3], t, EMPTY);
      UnmapStep(s, s', c) && Gone(s, c).managed
  }

  // ------------------------------------------------------ failed operations

  lemma UnchangedKeepsInv(s: State, s': State)
    requires Inv(s) && Unchanged(s, s')
    ensures Inv(s')
  {
    UnchangedIsKernelStep(s, s');
    KernelKeepsInv(s, s');
  }

  /** An abandoned operation may have used free frames, as the kernel does. */
  lemma UnchangedIsKernelStep(s: State, s': State)
    requires Inv(s) && Unchanged(s, s')
    ensures KernelStep(s, s')
  {
    FramesInRange(s);
    InvParts(s);
    hide Inv, KernelHalf;
    KernelTablesStay(s, s');
  }

  lemma UnchangedKeepsViews(s: State, s': State)
    requires Inv(s) && Unchanged(s, s')
    ensures AllViews(s') == AllViews(s)
  {
    UnchangedIsKernelStep(s, s');
    KernelKeepsViews(s, s');
  }

  // ----------------------------------------------------------------- events

  datatype Event =
    | NewSpace(root: nat)
    | Fork(parent: nat, child: nat)
    | Write(root: nat, q: seq<nat>, offset: nat, b: bv8)
    | Map(root: nat, q: seq<nat>, bytes: seq<bv8>, a: Rights)
    | Remap(root: nat, q: seq<nat>, a: Rights)
    | Unmap(root: nat, q: seq<nat>)
    | Exit(root: nat)
    | Abandoned
    | Kernel

  /** What the kernel does. */
  ghost predicate Next(s: State, ev: Event, s': State) {
    match ev
    case NewSpace(root) => exists current :: NewRootStep(s, s', current, root)
    case Fork(parent, child) => ForkStep(s, s', parent, child)
    case Write(r, q, offset, b) => WriteStep(s, s', r, q, offset, b)
    case Map(r, q, bytes, a) => MapStep(s, s', r, q, bytes, a)
    case Remap(r, q, a) => RemapStep(s, s', r, q, a)
    case Unmap(r, q) => PageGone(s, s', r, q)
    case Exit(r) => ExitStep(s, s', r)
    case Abandoned => Unchanged(s, s')
    case Kernel => KernelStep(s, s')
  }

  /** What the machine that copies eagerly does.  A write is performed if the page
      is there, for users and writable; otherwise the process is removed. */
  ghost function Eager(v: Views, ev: Event): Views {
    match ev
    case NewSpace(_) => v
    case Fork(parent, child) => Duplicated(v, parent, child)
    case Write(r, q, offset, b) =>
      if (r, q) in v && v[(r, q)].rights.user && v[(r, q)].rights.writable
        && offset < |v[(r, q)].bytes| then Stored(v, r, q, offset, b)
      else Removed(v, r)
    case Map(r, q, bytes, a) => v[(r, q) := Page(bytes, a)]
    case Remap(r, q, a) => Reflagged(v, r, q, a)
    case Unmap(r, q) => Unmapped(v, r, q)
    case Exit(r) => Removed(v, r)
    case Abandoned => v
    case Kernel => v
  }

  lemma AllowedIsWritable(s: State, r: nat, q: seq<nat>)
    requires Inv(s) && r in s.roots && PagePath(q)
    ensures HardwareAllows(s, r, q) ==> Mapped(s, r, q) && !Ent(s.mem, r, q).value.cow
    ensures HardwareAllows(s, r, q) ==> UserAccess(s.mem, r, q) && WriteAccess(s.mem, r, q)
    ensures !ChecksPass(s, r, q) ==> !Mapped(s, r, q) || !UserAccess(s.mem, r, q) || !WriteAccess(s.mem, r, q)
  {
    assert q[..LEVELS] == q;
    if HardwareAllows(s, r, q) {
      var e := Ent(s.mem, r, q).value;
      assert Selects(s, r, q, e);
      assert Reaches(s, r, q, e.frame);
    }
  }

  lemma WriteRefines(s: State, s': State, r: nat, q: seq<nat>, offset: nat, b: bv8)
    requires Inv(s) && WriteStep(s, s', r, q, offset, b)
    ensures Inv(s') && AllViews(s') == Eager(AllViews(s), Write(r, q, offset, b))
  {
    var s1 :|
      && (s1 == s || Repaired(s, s1, r, q))
      && if HardwareAllows(s1, r, q) then StoreStep(s1, s', r, q, offset, b)
         else !ChecksPass(s1, r, q) && ExitStep(s1, s', r);
    if s1 != s {
      var c: Repair :| c.root == r && c.q == q && FaultStep(s, s1, c);
      FaultKeepsInv(s, s1, c);
      FaultKeepsViews(s, s1, c);
    }
    FinishWrite(s1, s', r, q, offset, b);
  }

  /** A path through the upper half passes no check: its first entry denies user access. */
  lemma UpperHalfDenied(s: State, r: nat, q: seq<nat>)
    requires Inv(s) && r in s.roots && |q| == LEVELS && q[0] >= USER_ENTRIES
    ensures Ent(s.mem, r, q[..1]).Some? ==> !Ent(s.mem, r, q[..1]).value.user
    ensures !HardwareAllows(s, r, q) && !ChecksPass(s, r, q) && !Mapped(s, r, q)
  {
    assert q[..1] == [] + [q[0]];
    WalkSnoc(s.mem, r, [], q[0]);
    assert KernelTop(s.mem, r);
    assert !CheckPasses(Ent(s.mem, r, q[..1]));
  }

  lemma FinishWrite(s: State, s': State, r: nat, q: seq<nat>, offset: nat, b: bv8)
    requires Inv(s) && r in s.roots && |q| == LEVELS
    requires if HardwareAllows(s, r, q) then StoreStep(s, s', r, q, offset, b)
             else !ChecksPass(s, r, q) && ExitStep(s, s', r)
    ensures Inv(s') && AllViews(s') == Eager(AllViews(s), Write(r, q, offset, b))
  {
    if PagePath(q) { AllowedIsWritable(s, r, q); } else { UpperHalfDenied(s, r, q); }
    InViews(s, r, q);
    if HardwareAllows(s, r, q) {
      StoreKeepsInv(s, s', r, q, offset, b);
      StoreChangesOneView(s, s', r, q, offset, b);
    } else {
      ExitKeepsInv(s, s', r);
      ExitRemovesViews(s, s', r);
    }
  }

  lemma TableRefines(s: State, s': State, r: nat, p: seq<nat>, i: nat, user: bool)
    requires Inv(s) && TableStep(s, s', r, p, i, user) && |p| + 1 < LEVELS
    ensures Inv(s') && AllViews(s') == AllViews(s)
  {
    if t, e: Entry :| e.user == user && InstallStep(s, s', Install(r, p, i, t, e)) {
      InstallKeepsInv(s, s', Install(r, p, i, t, e));
      InstallViews(s, s', Install(r, p, i, t, e));
    } else if user {
      var t: nat :| WidenStep(s, s', r, p, i, t);
      var c := Install(r, p, i, t, s.mem[t].es[i].(user := true));
      ReflagKeepsInv(s, s', c);
      ReflagViews(s, s', c);
    }
  }

  lemma PageRefines(s: State, s': State, r: nat, q: seq<nat>, bytes: seq<bv8>, a: Rights)
    requires Inv(s) && PageStep(s, s', r, q, bytes, a)
    ensures (r, q) !in AllViews(s)
    ensures Inv(s') && AllViews(s') == AllViews(s)[(r, q) := Page(bytes, a)]
  {
    var t, e: Entry :| InstallStep(s, s', Install(r, q[..3], q[3], t, e)) && Gives(e, a)
      && s'.mem[e.frame] == Data(bytes);
    var c := Install(r, q[..3], q[3], t, e);
    assert c.Path() == q;
    InstallKeepsInv(s, s', c);
    InstallViews(s, s', c);
  }

  lemma TablesRefine(s: State, s': State, r: nat, q: seq<nat>, user: bool)
    requires Inv(s) && |q| == LEVELS && TableSteps(s, s', r, q, user)
    ensures Inv(s') && AllViews(s') == AllViews(s)
  {
    var s1, s2 :|
      && TableStep(s, s1, r, q[..0], q[0], user)
      && TableStep(s1, s2, r, q[..1], q[1], user)
      && TableStep(s2, s', r, q[..2], q[2], user);
    TableRefines(s, s1, r, q[..0], q[0], user);
    TableRefines(s1, s2, r, q[..1], q[1], user);
    TableRefines(s2, s', r, q[..2], q[2], user);
  }

  lemma MapRefines(s: State, s': State, r: nat, q: seq<nat>, bytes: seq<bv8>, a: Rights)
    requires Inv(s) && MapStep(s, s', r, q, bytes, a)
    ensures (r, q) !in AllViews(s)
    ensures Inv(s') && AllViews(s') == AllViews(s)[(r, q) := Page(bytes, a)]
  {
    var s1 := AfterTables(s, s', r, q, bytes, a);
    PageRefines(s1, s', r, q, bytes, a);
  }

  lemma AfterTables(s: State, s': State, r: nat, q: seq<nat>, bytes: seq<bv8>, a: Rights)
    returns (s1: State)
    requires Inv(s) && MapStep(s, s', r, q, bytes, a)
    ensures Inv(s1) && AllViews(s1) == AllViews(s) && PageStep(s1, s', r, q, bytes, a)
  {
    s1 :| TableSteps(s, s1, r, q, a.user) && PageStep(s1, s', r, q, bytes, a);
    TablesRefine(s, s1, r, q, a.user);
  }

  lemma LeafRefines(s: State, s': State, r: nat, q: seq<nat>, a: Rights)
    requires Inv(s) && LeafStep(s, s', r, q, a)
    ensures Inv(s') && (r, q) in AllViews(s) && AllViews(s') == Reflagged(AllViews(s), r, q, a)
  {
    var t: nat, e: Entry :|
      ReflagStep(s, s', Install(r, q[..3], q[3], t, e)) && !e.cow && Gives(e, a);
    var c := Install(r, q[..3], q[3], t, e);
    assert c.Path() == q;
    ReflagKeepsInv(s, s', c);
    ReflagViews(s, s', c);
  }

  /** Remapping changes the rights to one page, which must be there, and nothing else. */
  lemma RemapRefines(s: State, s': State, r: nat, q: seq<nat>, a: Rights)
    requires Inv(s) && RemapStep(s, s', r, q, a)
    ensures Inv(s') && (r, q) in AllViews(s) && AllViews(s') == Reflagged(AllViews(s), r, q, a)
  {
    hide LeafStep, TableSteps, AllViews, Inv;
    var s1 :| TableSteps(s, s1, r, q, a.user) && LeafStep(s1, s', r, q, a);
    TablesRefine(s, s1, r, q, a.user);
    LeafRefines(s1, s', r, q, a);
  }

  lemma UnmapRefines(s: State, s': State, r: nat, q: seq<nat>)
    requires Inv(s) && PageGone(s, s', r, q)
    ensures Inv(s') && (r, q) in AllViews(s) && AllViews(s') == Unmapped(AllViews(s), r, q)
  {
    var t: nat :| var c := Install(r, q[..3], q[3], t, EMPTY); UnmapStep(s, s', c) && Gone(s, c).managed;
    var c := Install(r, q[..3], q[3], t, EMPTY);
    assert c.Path() == q;
    UnmapKeepsInvIff(s, s', c);
    UnmapViews(s, s', c);
  }

  /** Every operation keeps the invariant and does to the views exactly what the
      eager machine does. */
  lemma StepRefines(s: State, ev: Event, s': State)
    requires Inv(s) && Next(s, ev, s')
    ensures Inv(s') && AllViews(s') == Eager(AllViews(s), ev)
  {
    hide Inv, AllViews, WriteStep, MapStep, RemapStep, ForkStep, ExitStep, NewRootStep, KernelStep, Unchanged, PageGone;
    match ev
    case NewSpace(root) =>
      var current :| NewRootStep(s, s', current, root);
      NewRootKeepsInv(s, s', current, root);
      NewRootKeepsViews(s, s', current, root);
    case Fork(parent, child) =>
      ForkKeepsInv(s, s', parent, child);
      ForkDuplicatesViews(s, s', parent, child);
    case Write(r, q, offset, b) => WriteRefines(s, s', r, q, offset, b);
    case Map(r, q, bytes, a) => MapRefines(s, s', r, q, bytes, a);
    case Remap(r, q, a) => RemapRefines(s, s', r, q, a);
    case Unmap(r, q) => UnmapRefines(s, s', r, q);
    case Exit(r) =>
      ExitKeepsInv(s, s', r);
      ExitRemovesViews(s, s', r);
    case Abandoned =>
      UnchangedKeepsInv(s, s');
      UnchangedKeepsViews(s, s');
    case Kernel =>
      KernelKeepsInv(s, s');
      KernelKeepsViews(s, s');
  }

  // ------------------------------------------------------------------- runs

  ghost predicate IsRun(states: seq<State>, events: seq<Event>) {
    |states| == |events| + 1 && forall i :: 0 <= i < |events| ==> Next(states[i], events[i], states[i + 1])
  }

  /** The eager machine over a whole list of events. */
  ghost function EagerRun(v: Views, events: seq<Event>): Views {
    if events == [] then v else Eager(EagerRun(v, events[..|events| - 1]), events[|events| - 1])
  }

  /** Copy-on-write refines eager copying: after any run from a state that
      satisfies the invariant, every process sees exactly what it would see had
      each fork copied all of memory, and the invariant (reference counts equal
      path counts, sharing discipline) still holds. */
  lemma {:induction false} CopyOnWriteRefinesEagerCopy(states: seq<State>, events: seq<Event>)
    requires IsRun(states, events) && Inv(states[0])
    ensures Inv(states[|events|])
    ensures AllViews(states[|events|]) == EagerRun(AllViews(states[0]), events)
    decreases |events|
  {
    hide Next, Inv, AllViews, Eager;
    if events != [] {
      var n := |events| - 1;
      CopyOnWriteRefinesEagerCopy(states[..n + 1], events[..n]);
      StepRefines(states[n], events[n], states[n + 1]);
    }
  }

  /** The state start-up hands over: one address space with an empty user half. */
  ghost predicate Boot(s: State, r: nat) {
    && RootsOk(s) && KernelHalf(s) && s.roots == {r} && s.used == s.reserved + {r} && s.refs[r] == 1
    && forall i :: 0 <= i < USER_ENTRIES ==> !s.mem[r].es[i].present
  }

  lemma {:induction false} NothingMapped(s: State, r: nat, p: seq<nat>)
    requires Boot(s, r) && UserPath(p) && p != []
    ensures Ent(s.mem, r, p).None? && Walk(s.mem, r, p).None?
    decreases |p|
  {
    var front, i := p[..|p| - 1], p[|p| - 1];
    assert p == front + [i];
    WalkSnoc(s.mem, r, front, i);
    if front == [] {
      assert p[0] == i;
    } else {
      NothingMapped(s, r, front);
    }
  }

  /** The invariant holds from the start, with nothing mapped. */
  lemma BootSatisfiesInv(s: State, r: nat)
    requires Boot(s, r)
    ensures Inv(s) && AllViews(s) == imap[]
  {
    forall r': nat, p: seq<nat>, f: nat | Reaches(s, r', p, f) ensures p == [] {
      if p != [] { NothingMapped(s, r, p); }
    }
    forall r': nat, p: seq<nat>, e ensures !Selects(s, r', p, e) {
      if r' == r && UserPath(p) && p != [] { NothingMapped(s, r, p); }
    }
    forall r': nat, q: seq<nat> ensures !Mapped(s, r', q) {
      if r' == r && PagePath(q) { NothingMapped(s, r, q); }
    }
  }
}
