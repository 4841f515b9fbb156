/**
 Mapping new pages into an address space whose tables on the way are its own:
 the walk that creates missing tables, and the page loop over a range.
 */
module VmMap {
  import opened Basics
  import opened PageTables
  import opened AddressSpaces
  import opened Paging
  import opened CowMap
  import opened CowInstall
  import opened CowRuns
  import opened CowKernel

  predicate NotCow(e: Option<Entry>) {
    e.Some? ==> !e.value.cow
  }

  /** No entry on the way to page q is copy-on-write. */
  ghost predicate NoCow(s: State, r: nat, q: seq<nat>) {
    forall j :: 1 <= j <= |q| ==> NotCow(Ent(s.mem, r, q[..j]))
  }

  /** The walk has come to table t at depth j of path q. */
  ghost predicate At(s: State, r: nat, q: seq<nat>, j: nat, t: nat, user: bool) {
    && PagePath(q) && j < LEVELS && (forall i :: 0 <= i < LEVELS ==> q[i] < ENTRIES)
    && OwnTable(s, r, q[..j], t) && NoCow(s, r, q)
    && (user && j > 0 ==> Ent(s.mem, r, q[..j]).value.user)
  }

  lemma StepOnPath(s: State, r: nat, q: seq<nat>, j: nat, t: nat, user: bool)
    requires At(s, r, q, j, t, user)
    ensures UserPath(q[..j] + [q[j]]) && q[..j] + [q[j]] == q[..j + 1]
    ensures Ent(s.mem, r, q[..j + 1]) == Lookup(s.mem, t, q[j])
    ensures Walk(s.mem, r, q[..j + 1]) == match Lookup(s.mem, t, q[j]) case None => None case Some(e) => Some(e.frame)
    ensures NotCow(Lookup(s.mem, t, q[j]))
  {
    assert q[..j] + [q[j]] == q[..j + 1];
    WalkSnoc(s.mem, r, q[..j], q[j]);
    assert NotCow(Ent(s.mem, r, q[..j + 1]));
  }

  lemma AtNextInstalled(s: State, s': State, r: nat, q: seq<nat>, j: nat, t: nat, e: Entry, user: bool)
    requires Inv(s) && At(s, r, q, j, t, user) && j + 1 < LEVELS && e.user == user
    requires InstallStep(s, s', Install(r, q[..j], q[j], t, e))
    ensures At(s', r, q, j + 1, e.frame, user) && Ent(s'.mem, r, q) == Ent(s.mem, r, q)
  {
    hide Inv;
    InvParts(s);
    var c := Install(r, q[..j], q[j], t, e);
    StepOnPath(s, r, q, j, t, user);
    assert c in Installs(s, s') by { PrivateOf(s); }
    forall m | 1 <= m <= LEVELS
      ensures Ent(s'.mem, r, q[..m]) == if m == j + 1 then Some(e) else Ent(s.mem, r, q[..m])
    {
      InstallEntries(s, s', c, r, q[..m]);
    }
    assert q[..LEVELS] == q;
    InstallEntries(s, s', c, r, q[..j + 1]);
    assert forall m :: 1 <= m <= |q| ==> NotCow(Ent(s.mem, r, q[..m]));
  }

  lemma PrivateOf(s: State)
    requires Inv(s)
    ensures Private(s)
  {}

  lemma AtNextWidened(s: State, s': State, r: nat, q: seq<nat>, j: nat, t: nat)
    requires Inv(s) && At(s, r, q, j, t, true) && j + 1 < LEVELS && Lookup(s.mem, t, q[j]).Some?
    requires WidenStep(s, s', r, q[..j], q[j], t)
    ensures At(s', r, q, j + 1, Lookup(s.mem, t, q[j]).value.frame, true) && Ent(s'.mem, r, q) == Ent(s.mem, r, q)
  {
    hide Inv;
    InvParts(s);
    PrivateOf(s);
    StepOnPath(s, r, q, j, t, true);
    var c := Install(r, q[..j], q[j], t, s.mem[t].es[q[j]].(user := true));
    assert c in Reflags(s, s');
    forall m | 1 <= m <= LEVELS
      ensures Ent(s'.mem, r, q[..m]) == if m == j + 1 then Some(c.e) else Ent(s.mem, r, q[..m])
    {
      ReflagEntries(s, s', c, r, q[..m]);
    }
    ReflagEntries(s, s', c, r, q[..j + 1]);
    assert q[..LEVELS] == q;
    TableBelow(s, r, q, j, t, true);
    assert forall m :: 1 <= m <= |q| ==> NotCow(Ent(s.mem, r, q[..m]));
  }

  lemma TableBelow(s: State, r: nat, q: seq<nat>, j: nat, t: nat, user: bool)
    requires Inv(s) && At(s, r, q, j, t, user) && j + 1 < LEVELS && Lookup(s.mem, t, q[j]).Some?
    ensures IsTable(s.mem, Lookup(s.mem, t, q[j]).value.frame) && Lookup(s.mem, t, q[j]).value.frame != t
  {
    StepOnPath(s, r, q, j, t, user);
    assert Reaches(s, r, q[..j + 1], Lookup(s.mem, t, q[j]).value.frame);
    assert Reaches(s, r, q[..j], t);
    assert |q[..j]| != |q[..j + 1]|;
  }

  lemma AtNextPresent(s: State, r: nat, q: seq<nat>, j: nat, t: nat)
    requires Inv(s) && At(s, r, q, j, t, false) && j + 1 < LEVELS && Lookup(s.mem, t, q[j]).Some?
    ensures At(s, r, q, j + 1, Lookup(s.mem, t, q[j]).value.frame, false)
  {
    StepOnPath(s, r, q, j, t, false);
    TableBelow(s, r, q, j, t, false);
  }

  /** `walkToWithAlloc` at depth j of path q.  It fails exactly when a table is missing
      and no frame is free, and then leaves everything as it was. */
  method WalkInUserHalf(k: CoW, t: nat, index: nat, user: bool, ghost r: nat, ghost q: seq<nat>, ghost j: nat)
    returns (ok: bool, next: nat)
    requires k.Valid() && At(k.S(), r, q, j, t, user) && j + 1 < LEVELS && index == q[j]
    modifies k.mem, k.phys, k.phys.bitmap, k.phys.refCount
    ensures k.Valid()
    ensures ok ==> TableStep(old(k.S()), k.S(), r, q[..j], q[j], user)
    ensures ok ==> At(k.S(), r, q, j + 1, next, user) && Ent(k.S().mem, r, q) == old(Ent(k.S().mem, r, q))
    ensures ok <==> old(Ent(k.S().mem, r, q[..j + 1])).Some? || FreeFrames(old(k.S())) != {}
    ensures !ok ==> k.S() == old(k.S())
  {
    hide Inv, At, WidenStep, InstallStep, TableStep;
    ghost var s := k.S();
    AtParts(s, r, q, j, t, user);
    TableIsUsed(s, r, q, j, t, user);
    StepOnPath(s, r, q, j, t, user);
    ok, next := k.WalkToWithAlloc(t, index, user);
    if !ok { return; }
    if !s.mem[t].es[index].present {
      TableInstalled(s, k.S(), r, q, j, t, TableEntry(next, user), user);
      InstallKeepsInv(s, k.S(), Install(r, q[..j], q[j], t, TableEntry(next, user)));
      AtNextInstalled(s, k.S(), r, q, j, t, TableEntry(next, user), user);
    } else if user {
      Widens(s, k.S(), r, q, j, t);
      TableRefines(s, k.S(), r, q[..j], q[j], true);
      AtNextWidened(s, k.S(), r, q, j, t);
    } else {
      NothingWidened(s, k.S(), r, q, j, t);
      AtNextPresent(s, r, q, j, t);
    }
  }

  lemma TableIsUsed(s: State, r: nat, q: seq<nat>, j: nat, t: nat, user: bool)
    requires Inv(s) && At(s, r, q, j, t, user)
    ensures t in s.used
  {
    assert Reaches(s, r, q[..j], t);
  }

  lemma NothingWidened(s: State, s': State, r: nat, q: seq<nat>, j: nat, t: nat)
    requires IsTable(s.mem, t) && j < |q| && q[j] < ENTRIES
    requires s' == s.(mem := s.mem[t := Table(s.mem[t].es[q[j] := s.mem[t].es[q[j]]])])
    ensures s' == s && TableStep(s, s', r, q[..j], q[j], false)
  {
    assert s.mem[t].es[q[j] := s.mem[t].es[q[j]]] == s.mem[t].es;
    assert s.mem[t := Table(s.mem[t].es)] == s.mem;
  }

  lemma AtParts(s: State, r: nat, q: seq<nat>, j: nat, t: nat, user: bool)
    requires At(s, r, q, j, t, user)
    ensures IsTable(s.mem, t) && |q| == LEVELS && q[j] < ENTRIES && r in s.roots
  {}

  lemma TableInstalled(s: State, s': State, r: nat, q: seq<nat>, j: nat, t: nat, e: Entry, user: bool)
    requires Inv(s) && At(s, r, q, j, t, user) && j + 1 < LEVELS && Lookup(s.mem, t, q[j]).None?
    requires e == Entry(e.frame, true, true, user, true, false, false, false) && e.frame !in s.used && e.frame < |s.mem|
    requires s'.mem == s.mem[t := Table(s.mem[t].es[q[j] := e])][e.frame := EmptyTable()]
    requires s' == s.(mem := s'.mem, refs := s.refs[e.frame := 1], used := s.used + {e.frame})
    ensures InstallStep(s, s', Install(r, q[..j], q[j], t, e))
    ensures TableStep(s, s', r, q[..j], q[j], user)
  {
    StepOnPath(s, r, q, j, t, user);
    assert Reaches(s, r, q[..j], t);
    assert t in s.used;
  }

  lemma Widens(s: State, s': State, r: nat, q: seq<nat>, j: nat, t: nat)
    requires Inv(s) && At(s, r, q, j, t, true) && j + 1 < LEVELS && Lookup(s.mem, t, q[j]).Some?
    requires s' == s.(mem := s.mem[t := Table(s.mem[t].es[q[j] := s.mem[t].es[q[j]].(user := true)])])
    ensures WidenStep(s, s', r, q[..j], q[j], t)
    ensures TableStep(s, s', r, q[..j], q[j], true)
  {
    StepOnPath(s, r, q, j, t, true);
    assert Selects(s, r, q[..j + 1], s.mem[t].es[q[j]]);
    assert WidenStep(s, s', r, q[..j], q[j], t);
  }

  // ------------------------------------------------------------- one page

  /** The flags a caller asks for. */
  datatype Flags = Flags(user: bool, writable: bool, managed: bool, noExecute: bool)
  {
    function Given(): Rights { Rights(user, writable, !noExecute) }
  }

  /** They are bits 1, 2, 9 and 63 of the word it passes. */
  function FlagsOf(w: bv64): Flags {
    Flags(w & 4 != 0, w & 2 != 0, w & 0x200 != 0, w & 0x8000_0000_0000_0000 != 0)
  }

  /** `DEFAULT_KERNEL_FLAGS`. */
  const KERNEL_FLAGS: Flags := FlagsOf(0x8000_0000_0000_0203)

  /** The entry of a page mapped with these flags. */
  function Leaf(frame: nat, f: Flags): Entry {
    Entry(frame, true, f.writable, f.user, f.managed, false, false, f.noExecute)
  }

  /** The entries of the model are the words of the code. */
  lemma LeafWords(raw: bv64, flags: bv64, addr: bv64)
    requires addr & FLAGS_MASK == 0 && flags & !FLAGS_MASK == 0 && flags & 1 != 0 && flags & 0xC00 == 0
    ensures Decode(RawLeaf(flags, addr)) == Leaf((addr >> 12) as nat, FlagsOf(flags))
    ensures Decode(RawRemap(raw, flags)) == Leaf(Decode(raw).frame, FlagsOf(flags).(managed := Decode(raw).managed))
  {
    hide RawLeaf, RawRemap, Decode;
    NewLeafWord(flags, addr);
    OldLeafWord(raw, flags);
  }

  lemma KernelRights()
    ensures KERNEL_FLAGS == Flags(false, true, true, true)
  {}

  /** An entry that is there, is not copy-on-write, and has the flags asked for, as far as
      they say what may be done with the page. */
  predicate HasFlags(e: Entry, f: Flags) {
    && e.present && !e.cow && !e.wasWritable
    && e.user == f.user && e.writable == f.writable && e.noExecute == f.noExecute
  }

  /** A page that was not there has the flags asked for. */
  predicate NewLeaf(e': Option<Entry>, f: Flags) {
    e'.Some? && HasFlags(e'.value, f) && e'.value.managed == f.managed
  }

  /** One that was there has them, on the frame it had, which is managed if it was. */
  predicate OldLeaf(e: Entry, e': Option<Entry>, f: Flags) {
    e'.Some? && HasFlags(e'.value, f) && e'.value.frame == e.frame && e'.value.managed == e.managed
  }

  /** A page that is not there is mapped; one that is there gets the new flags and
      keeps its frame and whether the frame is managed. */
  ghost predicate PutStep(s: State, s': State, r: nat, q: seq<nat>, f: Flags, bytes: seq<bv8>)
    requires q != []
  {
    match Ent(s.mem, r, q)
    case None => MapStep(s, s', r, q, bytes, f.Given()) && NewLeaf(Ent(s'.mem, r, q), f)
    case Some(e) =>
      && RemapStep(s, s', r, q, f.Given())
      && OldLeaf(e, Ent(s'.mem, r, q), f)
  }

  /** `mapNewPageAt` without a physical address.  `residue` is what a fresh frame
      held before: new pages are not zeroed. */
  method MapNewPageAt(k: CoW, r: nat, addr: nat, f: Flags, residue: seq<bv8>) returns (ok: bool)
    requires k.Valid() && r in k.roots && addr < USER_END && |residue| == PAGE_SIZE
    requires NoCow(k.S(), r, PathAt(addr))
    modifies k.mem, k.phys, k.phys.bitmap, k.phys.refCount
    ensures k.Valid()
    ensures ok ==> PutStep(old(k.S()), k.S(), r, PathAt(addr), f, residue)
    ensures old(Ent(k.S().mem, r, PathAt(addr))).Some? ==> ok
    ensures !ok ==> FreeFrames(k.S()) == {} && AllViews(k.S()) == old(AllViews(k.S()))
  {
    hide Inv, At, TableStep, TableSteps, PathAt, PutStep, FreeFrames, AllViews;
    ghost var s0 := k.S();
    StartAtTop(s0, r, addr, f.user);
    var q := PathAt(addr);
    var p1;
    ok, p1 := WalkToLeaf(k, r, q, f.user);
    if !ok { return; }
    ghost var s3 := k.S();
    ok := PutLeaf(k, r, q, p1, f, residue);
    if ok { PutStepIs(s0, s3, k.S(), r, q, f, residue); } else { TablesRefine(s0, s3, r, q, f.user); }
  }

  /** The three levels of tables above the leaf. */
  method WalkToLeaf(k: CoW, r: nat, q: seq<nat>, user: bool) returns (ok: bool, p1: nat)
    requires k.Valid() && At(k.S(), r, q, 0, r, user) && |q| == LEVELS
    modifies k.mem, k.phys, k.phys.bitmap, k.phys.refCount
    ensures k.Valid()
    ensures ok ==> TableSteps(old(k.S()), k.S(), r, q, user) && At(k.S(), r, q, 3, p1, user)
    ensures ok ==> Ent(k.S().mem, r, q) == old(Ent(k.S().mem, r, q))
    ensures !ok ==> old(Ent(k.S().mem, r, q)).None? && FreeFrames(k.S()) == {}
    ensures !ok ==> AllViews(k.S()) == old(AllViews(k.S()))
  {
    hide Inv, At, TableStep, FreeFrames, AllViews;
    ghost var s0 := k.S();
    var p3, p2;
    p1 := 0;
    ok, p3 := WalkInUserHalf(k, r, q[0], user, r, q, 0);
    if !ok { NoTable(k.S(), r, q, 1); return; }
    ghost var s1 := k.S();
    TableRefines(s0, s1, r, q[..0], q[0], user);
    ok, p2 := WalkInUserHalf(k, p3, q[1], user, r, q, 1);
    if !ok { NoTable(k.S(), r, q, 2); return; }
    TableRefines(s1, k.S(), r, q[..1], q[1], user);
    ok, p1 := WalkInUserHalf(k, p2, q[2], user, r, q, 2);
    if !ok { NoTable(k.S(), r, q, 3); return; }
  }

  lemma NoTable(s: State, r: nat, q: seq<nat>, j: nat)
    requires 1 <= j < |q| && Ent(s.mem, r, q[..j]).None?
    ensures Ent(s.mem, r, q).None?
  {
    if Walk(s.mem, r, q).Some? { WalkPrefix(s.mem, r, q, j); }
  }

  /** What happens to the leaf entry itself. */
  ghost predicate LeafPut(s: State, s': State, r: nat, q: seq<nat>, f: Flags, bytes: seq<bv8>)
    requires q != []
  {
    match Ent(s.mem, r, q)
    case None => PageStep(s, s', r, q, bytes, f.Given()) && NewLeaf(Ent(s'.mem, r, q), f)
    case Some(e) =>
      && LeafStep(s, s', r, q, f.Given())
      && OldLeaf(e, Ent(s'.mem, r, q), f)
  }

  method PutLeaf(k: CoW, r: nat, q: seq<nat>, p1: nat, f: Flags, residue: seq<bv8>) returns (ok: bool)
    requires k.Valid() && |q| == LEVELS && At(k.S(), r, q, 3, p1, f.user) && |residue| == PAGE_SIZE
    modifies k.mem, k.phys, k.phys.bitmap, k.phys.refCount
    ensures k.Valid()
    ensures ok ==> LeafPut(old(k.S()), k.S(), r, q, f, residue)
    ensures ok <==> old(Ent(k.S().mem, r, q)).Some? || FreeFrames(old(k.S())) != {}
    ensures !ok ==> k.S() == old(k.S())
  {
    hide Inv, At, PageStep, LeafStep, NewLeaf, OldLeaf, FreeFrames;
    ghost var s := k.S();
    AtParts(s, r, q, 3, p1, f.user);
    LeafEntry(s, r, q, p1, f.user);
    if !k.mem[p1].es[q[3]].present {
      ok := AddLeaf(k, r, q, p1, f, residue);
    } else {
      var e := k.mem[p1].es[q[3]];
      k.SetEntry(p1, q[3], Leaf(e.frame, f.(managed := e.managed)));
      LeafReflagged(s, k.S(), r, q, p1, e, f);
      LeafRefines(s, k.S(), r, q, f.Given());
      ok := true;
    }
  }

  lemma LeafEntry(s: State, r: nat, q: seq<nat>, t: nat, user: bool)
    requires At(s, r, q, 3, t, user)
    ensures Ent(s.mem, r, q) == Lookup(s.mem, t, q[3])
  {
    StepOnPath(s, r, q, 3, t, user);
    assert q[..4] == q;
  }

  /** The arm for a page that is not there. */
  method AddLeaf(k: CoW, r: nat, q: seq<nat>, p1: nat, f: Flags, residue: seq<bv8>) returns (ok: bool)
    requires k.Valid() && |q| == LEVELS && At(k.S(), r, q, 3, p1, f.user) && |residue| == PAGE_SIZE
    requires Lookup(k.S().mem, p1, q[3]).None?
    modifies k.mem, k.phys, k.phys.bitmap, k.phys.refCount
    ensures k.Valid()
    ensures ok ==> PageStep(old(k.S()), k.S(), r, q, residue, f.Given()) && NewLeaf(Ent(k.S().mem, r, q), f)
    ensures ok <==> FreeFrames(old(k.S())) != {}
    ensures !ok ==> k.S() == old(k.S())
  {
    hide Inv, At, PageStep, FreeFrames, NewLeaf, OldLeaf;
    ghost var s := k.S();
    AtParts(s, r, q, 3, p1, f.user);
    var frame := k.NewFrame();
    if frame == 0 { return false; }
    var e := Leaf(frame, f);
    k.SetEntry(p1, q[3], e);
    k.mem[frame] := Data(residue);
    PageInstalled(s, k.S(), r, q, p1, e, f, residue);
    PageRefines(s, k.S(), r, q, residue, f.Given());
    ok := true;
  }

  lemma StartAtTop(s: State, r: nat, addr: nat, user: bool)
    requires Inv(s) && r in s.roots && addr < USER_END && NoCow(s, r, PathAt(addr))
    ensures At(s, r, PathAt(addr), 0, r, user) && |PathAt(addr)| == LEVELS && PagePath(PathAt(addr))
  {
    UserHalf(addr);
    assert PathAt(addr)[..0] == [];
  }

  lemma PageInstalled(s: State, s': State, r: nat, q: seq<nat>, t: nat, e: Entry, f: Flags, bytes: seq<bv8>)
    requires Inv(s) && At(s, r, q, 3, t, e.user) && Lookup(s.mem, t, q[3]).None? && |bytes| == PAGE_SIZE
    requires e == Leaf(e.frame, f) && e.frame !in s.used && e.frame < |s.mem|
    requires s'.mem == s.mem[t := Table(s.mem[t].es[q[3] := e])][e.frame := Data(bytes)]
    requires s' == s.(mem := s'.mem, refs := s.refs[e.frame := 1], used := s.used + {e.frame})
    ensures PageStep(s, s', r, q, bytes, f.Given()) && q != [] && NewLeaf(Ent(s'.mem, r, q), f)
  {
    hide Inv;
    InvParts(s);
    PrivateOf(s);
    StepOnPath(s, r, q, 3, t, e.user);
    var c := Install(r, q[..3], q[3], t, e);
    assert Reaches(s, r, q[..3], t);
    assert InstallStep(s, s', c) && c in Installs(s, s');
    assert c.Path() == q;
    InstallEntries(s, s', c, r, q);
  }

  lemma LeafReflagged(s: State, s': State, r: nat, q: seq<nat>, t: nat, e: Entry, f: Flags)
    requires Inv(s) && At(s, r, q, 3, t, f.user) && Lookup(s.mem, t, q[3]) == Some(e)
    requires s' == s.(mem := s.mem[t := Table(s.mem[t].es[q[3] := Leaf(e.frame, f.(managed := e.managed))])])
    ensures LeafStep(s, s', r, q, f.Given())
    ensures OldLeaf(e, Ent(s'.mem, r, q), f)
  {
    hide Inv;
    InvParts(s);
    PrivateOf(s);
    StepOnPath(s, r, q, 3, t, f.user);
    var c := Install(r, q[..3], q[3], t, Leaf(e.frame, f.(managed := e.managed)));
    assert ReflagStep(s, s', c) && c in Reflags(s, s');
    assert c.Path() == q;
    ReflagEntries(s, s', c, r, q);
  }

  lemma PutStepIs(s: State, s1: State, s': State, r: nat, q: seq<nat>, f: Flags, bytes: seq<bv8>)
    requires PagePath(q) && TableSteps(s, s1, r, q, f.user) && Ent(s1.mem, r, q) == Ent(s.mem, r, q)
    requires LeafPut(s1, s', r, q, f, bytes)
    ensures PutStep(s, s', r, q, f, bytes)
  {
    hide TableSteps, PageStep, LeafStep;
  }

  // ------------------------------------------------------------ a range

  /** What mapping page q of r does to every other path. */
  ghost predicate OthersKept(s: State, s': State, r: nat, q: seq<nat>) {
    && s'.roots == s.roots && s.used <= s'.used
    && (forall r', p | r' in s.roots && PagePath(p) && (r', p) != (r, q) ::
          Walk(s'.mem, r', p) == Walk(s.mem, r', p) && Ent(s'.mem, r', p) == Ent(s.mem, r', p))
    && (forall p | PagePath(p) && NoCow(s, r, p) :: NoCow(s', r, p))
  }

  /** ... and the page itself: a frame that was free. */
  ghost predicate PageMapped(s: State, s': State, r: nat, q: seq<nat>) {
    OthersKept(s, s', r, q) && Walk(s'.mem, r, q).Some? && Walk(s'.mem, r, q).value !in s.used
  }

  lemma InstallKeepsOthers(s: State, s': State, c: Install, q: seq<nat>)
    requires Inv(s) && InstallStep(s, s', c) && (|c.Path()| == LEVELS ==> c.Path() == q)
    ensures OthersKept(s, s', c.root, q)
    ensures |c.Path()| < LEVELS && PagePath(q) ==> Walk(s'.mem, c.root, q) == Walk(s.mem, c.root, q)
  {
    hide Inv;
    InvParts(s);
    PrivateOf(s);
    assert c in Installs(s, s');
    forall r', p | r' in s.roots && PagePath(p) && ((r', p) != (c.root, q) || |c.Path()| < LEVELS)
      ensures Walk(s'.mem, r', p) == Walk(s.mem, r', p) && Ent(s'.mem, r', p) == Ent(s.mem, r', p)
    {
      InstallEntries(s, s', c, r', p);
    }
    forall p | PagePath(p) && NoCow(s, c.root, p) ensures NoCow(s', c.root, p) {
      forall j | 1 <= j <= |p| ensures NotCow(Ent(s'.mem, c.root, p[..j])) {
        InstallEntries(s, s', c, c.root, p[..j]);
        assert NotCow(Ent(s.mem, c.root, p[..j]));
      }
    }
  }

  lemma ReflagKeepsOthers(s: State, s': State, c: Install, q: seq<nat>)
    requires Inv(s) && ReflagStep(s, s', c) && (|c.Path()| == LEVELS ==> c.Path() == q)
    ensures OthersKept(s, s', c.root, q)
    ensures PagePath(q) ==> Walk(s'.mem, c.root, q) == Walk(s.mem, c.root, q)
  {
    hide Inv;
    InvParts(s);
    PrivateOf(s);
    assert c in Reflags(s, s');
    forall r', p | r' in s.roots && PagePath(p)
      ensures Walk(s'.mem, r', p) == Walk(s.mem, r', p)
      ensures (r', p) != (c.root, q) ==> Ent(s'.mem, r', p) == Ent(s.mem, r', p)
    {
      ReflagEntries(s, s', c, r', p);
    }
    forall p | PagePath(p) && NoCow(s, c.root, p) ensures NoCow(s', c.root, p) {
      forall j | 1 <= j <= |p| ensures NotCow(Ent(s'.mem, c.root, p[..j])) {
        ReflagEntries(s, s', c, c.root, p[..j]);
        assert NotCow(Ent(s.mem, c.root, p[..j]));
      }
    }
  }

  lemma TableKeepsOthers(s: State, s': State, r: nat, p: seq<nat>, i: nat, user: bool, q: seq<nat>)
    requires Inv(s) && TableStep(s, s', r, p, i, user) && |p| + 1 < LEVELS
    ensures OthersKept(s, s', r, q)
    ensures PagePath(q) ==> Walk(s'.mem, r, q) == Walk(s.mem, r, q)
  {
    if t, e: Entry :| e.user == user && InstallStep(s, s', Install(r, p, i, t, e)) {
      InstallKeepsOthers(s, s', Install(r, p, i, t, e), q);
    } else if user {
      var t: nat :| WidenStep(s, s', r, p, i, t);
      ReflagKeepsOthers(s, s', Install(r, p, i, t, s.mem[t].es[i].(user := true)), q);
    }
  }

  lemma KeptTwice(s: State, s1: State, s2: State, r: nat, q: seq<nat>)
    requires OthersKept(s, s1, r, q) && OthersKept(s1, s2, r, q)
    ensures OthersKept(s, s2, r, q)
  {
    hide NoCow;
  }

  lemma TablesKeepOthers(s: State, s': State, r: nat, q: seq<nat>, user: bool)
    requires Inv(s) && PagePath(q) && TableSteps(s, s', r, q, user)
    ensures Inv(s') && OthersKept(s, s', r, q) && Walk(s'.mem, r, q) == Walk(s.mem, r, q)
  {
    hide Inv, TableStep, OthersKept;
    var s1, s2 :|
      && TableStep(s, s1, r, q[..0], q[0], user)
      && TableStep(s1, s2, r, q[..1], q[1], user)
      && TableStep(s2, s', r, q[..2], q[2], user);
    TableRefines(s, s1, r, q[..0], q[0], user);
    TableRefines(s1, s2, r, q[..1], q[1], user);
    TableRefines(s2, s', r, q[..2], q[2], user);
    TableKeepsOthers(s, s1, r, q[..0], q[0], user, q);
    TableKeepsOthers(s1, s2, r, q[..1], q[1], user, q);
    TableKeepsOthers(s2, s', r, q[..2], q[2], user, q);
    KeptTwice(s, s1, s2, r, q);
    KeptTwice(s, s2, s', r, q);
  }

  lemma PageIsMapped(s: State, s': State, r: nat, q: seq<nat>, bytes: seq<bv8>, a: Rights)
    requires Inv(s) && PageStep(s, s', r, q, bytes, a)
    ensures PageMapped(s, s', r, q)
  {
    hide Inv;
    var t, e: Entry :| InstallStep(s, s', Install(r, q[..3], q[3], t, e)) && Gives(e, a)
      && s'.mem[e.frame] == Data(bytes);
    var c := Install(r, q[..3], q[3], t, e);
    assert c.Path() == q;
    InstallKeepsOthers(s, s', c, q);
    InvParts(s);
    PrivateOf(s);
    assert c in Installs(s, s');
    InstallEntries(s, s', c, r, q);
  }

  /** One successful mapping, for the translation of every address. */
  lemma MapStepMaps(s: State, s': State, r: nat, q: seq<nat>, bytes: seq<bv8>, a: Rights)
    requires Inv(s) && MapStep(s, s', r, q, bytes, a)
    ensures PageMapped(s, s', r, q)
  {
    hide Inv, PageStep, TableSteps, OthersKept;
    var s1 :| TableSteps(s, s1, r, q, a.user) && PageStep(s1, s', r, q, bytes, a);
    TablesKeepOthers(s, s1, r, q, a.user);
    PageIsMapped(s1, s', r, q, bytes, a);
    KeptTwice(s, s1, s', r, q);
    UsedGrows(s, s1, r, q);
  }

  lemma UsedGrows(s: State, s': State, r: nat, q: seq<nat>)
    requires OthersKept(s, s', r, q)
    ensures s.used <= s'.used && s'.roots == s.roots
  {}

  /** Remapping moves no page. */
  lemma RemapStepKeeps(s: State, s': State, r: nat, q: seq<nat>, a: Rights)
    requires Inv(s) && RemapStep(s, s', r, q, a)
    ensures OthersKept(s, s', r, q) && Walk(s'.mem, r, q) == Walk(s.mem, r, q)
  {
    hide Inv, LeafStep, TableSteps, OthersKept;
    var s1 :| TableSteps(s, s1, r, q, a.user) && LeafStep(s1, s', r, q, a);
    TablesKeepOthers(s, s1, r, q, a.user);
    LeafKeeps(s1, s', r, q, a);
    KeptTwice(s, s1, s', r, q);
  }

  lemma LeafKeeps(s: State, s': State, r: nat, q: seq<nat>, a: Rights)
    requires Inv(s) && LeafStep(s, s', r, q, a)
    ensures OthersKept(s, s', r, q) && Walk(s'.mem, r, q) == Walk(s.mem, r, q)
  {
    var t: nat, e: Entry :|
      ReflagStep(s, s', Install(r, q[..3], q[3], t, e)) && !e.cow && Gives(e, a);
    var c := Install(r, q[..3], q[3], t, e);
    assert c.Path() == q;
    ReflagKeepsOthers(s, s', c, q);
  }

  /** Page addresses of a range. */
  predicate PageIn(a: nat, start: nat, end: nat) {
    a % PAGE_SIZE == 0 && start <= a < end
  }

  /** Path p belongs to a page of the range. */
  ghost predicate RangePath(p: seq<nat>, start: nat, end: nat) {
    exists a :: PageIn(a, start, end) && PathAt(a) == p
  }

  /** The page has the requested rights: on a frame that was free if it was not there
      before, and otherwise on its old frame with its old contents. */
  ghost predicate PageDone(s0: State, s: State, r: nat, q: seq<nat>, f: Flags)
    requires q != []
  {
    && Walk(s.mem, r, q).Some?
    && (r, q) in AllViews(s) && AllViews(s)[(r, q)].rights == Rights(f.user, f.writable, !f.noExecute)
    && match Ent(s0.mem, r, q)
       case None => NewLeaf(Ent(s.mem, r, q), f) && Walk(s.mem, r, q).value !in s0.used
       case Some(e) =>
         && OldLeaf(e, Ent(s.mem, r, q), f)
         && (r, q) in AllViews(s0) && AllViews(s)[(r, q)].bytes == AllViews(s0)[(r, q)].bytes
  }

  /** Every page of the range has the requested rights; every other path of every
      address space translates and looks as before. */
  ghost predicate RangeMapped(s0: State, s: State, r: nat, start: nat, end: nat, f: Flags) {
    && s.roots == s0.roots && s0.used <= s.used
    && (forall a | PageIn(a, start, end) :: PageDone(s0, s, r, PathAt(a), f))
    && (forall r', p | r' in s0.roots && PagePath(p)
      && (r' != r || !RangePath(p, start, end)) :: SamePage(s0, s, r', p))
  }

  ghost predicate SamePage(s0: State, s: State, r: nat, p: seq<nat>)
    requires PagePath(p)
  {
    && Walk(s.mem, r, p) == Walk(s0.mem, r, p) && Ent(s.mem, r, p) == Ent(s0.mem, r, p)
    && Agree(AllViews(s), AllViews(s0), r, p)
  }

  /** One page, for every path. */
  lemma PutEffect(s: State, s': State, r: nat, q: seq<nat>, f: Flags, bytes: seq<bv8>)
    requires Inv(s) && PagePath(q) && PutStep(s, s', r, q, f, bytes)
    ensures Inv(s') && s'.roots == s.roots && s.used <= s'.used && PageDone(s, s', r, q, f)
    ensures forall p | PagePath(p) && NoCow(s, r, p) :: NoCow(s', r, p)
    ensures forall r', p | r' in s.roots && PagePath(p) && (r', p) != (r, q) :: SamePage(s, s', r', p)
  {
    hide Inv, MapStep, RemapStep, AllViews, NoCow;
    if Ent(s.mem, r, q).None? {
      MapRefines(s, s', r, q, bytes, f.Given());
      MapStepMaps(s, s', r, q, bytes, f.Given());
    } else {
      RemapRefines(s, s', r, q, f.Given());
      RemapStepKeeps(s, s', r, q, f.Given());
    }
  }

  lemma NextPage(a: nat, start: nat, addr: nat)
    requires addr < USER_END && addr % PAGE_SIZE == 0 && start <= addr
    ensures PageIn(a, start, addr + 4096) <==> PageIn(a, start, addr) || a == addr
    ensures addr + 4096 > addr && (addr + 4096) % PAGE_SIZE == 0
  {}

  lemma RestOfRange(a: nat, addr: nat, end: nat)
    requires addr < end <= USER_END && addr % PAGE_SIZE == 0 && end % PAGE_SIZE == 0
    ensures PageIn(a, addr + 4096, end) ==> PageIn(a, addr, end) && a != addr
    ensures addr + 4096 <= end && (end - (addr + 4096)) < (end - addr)
  {}

  lemma RangeExtends(s0: State, s: State, s': State, r: nat, start: nat, addr: nat, bytes: seq<bv8>, f: Flags)
    requires Inv(s) && r in s.roots && addr < USER_END && addr % PAGE_SIZE == 0 && start <= addr
      && start % PAGE_SIZE == 0
    requires RangeMapped(s0, s, r, start, addr, f) && PutStep(s, s', r, PathAt(addr), f, bytes)
    ensures Inv(s') && RangeMapped(s0, s', r, start, addr + 4096, f)
    ensures forall p | PagePath(p) && NoCow(s, r, p) :: NoCow(s', r, p)
  {
    hide Inv, PutStep, PathAt, PageIn, NoCow, PageDone, SamePage, RangePath;
    var q := PathAt(addr);
    UserHalf(addr);
    PutEffect(s, s', r, q, f, bytes);
    OutsideShrinks(q, start, addr);
    assert SamePage(s0, s, r, q) by { NotYet(start, addr); }
    forall a | PageIn(a, start, addr + 4096) ensures PageDone(s0, s', r, PathAt(a), f) {
      NextPage(a, start, addr);
      if a == addr {
        DoneSince(s0, s, s', r, q, f);
      } else {
        assert PageDone(s0, s, r, PathAt(a), f);
        LowPage(a, start, addr);
        if PathAt(a) == q { PathInjective(a, addr); }
        DoneStays(s0, s, s', r, PathAt(a), f);
      }
    }
    forall r', p | r' in s0.roots && PagePath(p) && (r' != r || !RangePath(p, start, addr + 4096))
      ensures SamePage(s0, s', r', p)
    {
      OutsideShrinks(p, start, addr);
      SameTwice(s0, s, s', r', p);
    }
  }

  lemma DoneSince(s0: State, s: State, s': State, r: nat, q: seq<nat>, f: Flags)
    requires PagePath(q) && SamePage(s0, s, r, q) && PageDone(s, s', r, q, f) && s0.used <= s.used
    ensures PageDone(s0, s', r, q, f)
  {}

  lemma DoneStays(s0: State, s: State, s': State, r: nat, q: seq<nat>, f: Flags)
    requires PagePath(q) && PageDone(s0, s, r, q, f) && SamePage(s, s', r, q)
    ensures PageDone(s0, s', r, q, f)
  {}

  lemma SameTwice(s0: State, s: State, s': State, r: nat, p: seq<nat>)
    requires PagePath(p) && SamePage(s0, s, r, p) && SamePage(s, s', r, p)
    ensures SamePage(s0, s', r, p)
  {}

  lemma LowPage(a: nat, start: nat, addr: nat)
    requires addr < USER_END && PageIn(a, start, addr)
    ensures a < USER_END && a % PAGE_SIZE == 0 && PagePath(PathAt(a))
  {
    UserHalf(a);
  }

  /** The next page is not in the part done so far. */
  lemma NotYet(start: nat, addr: nat)
    requires addr < USER_END && addr % PAGE_SIZE == 0
    ensures !RangePath(PathAt(addr), start, addr)
  {
    hide PathAt;
    if a :| PageIn(a, start, addr) && PathAt(a) == PathAt(addr) { PathInjective(a, addr); }
  }

  lemma OutsideShrinks(p: seq<nat>, start: nat, addr: nat)
    requires addr < USER_END && addr % PAGE_SIZE == 0 && start <= addr
    ensures !RangePath(p, start, addr + 4096) ==> !RangePath(p, start, addr) && p != PathAt(addr)
  {
    hide PathAt;
    NextPage(addr, start, addr);
    if a :| PageIn(a, start, addr) && PathAt(a) == p { NextPage(a, start, addr); }
  }

  /** No path becomes copy-on-write. */
  ghost predicate StaysNoCow(s: State, s': State, r: nat) {
    forall p | PagePath(p) && NoCow(s, r, p) :: NoCow(s', r, p)
  }

  /** `mapNewPages`, which fails only when no frame is left. The code then takes back what
      the failing step and the steps before it made; the model leaves it. */
  method MapNewPages(k: CoW, r: nat, start: nat, end: nat, f: Flags, residues: nat -> seq<bv8>)
    returns (ok: bool)
    requires k.Valid() && r in k.roots && forall a :: |residues(a)| == PAGE_SIZE
    requires start % PAGE_SIZE == 0 && end % PAGE_SIZE == 0 && start <= end <= USER_END
    requires forall a | PageIn(a, start, end) :: NoCow(k.S(), r, PathAt(a))
    modifies k.mem, k.phys, k.phys.bitmap, k.phys.refCount
    ensures k.Valid()
    ensures ok ==> RangeMapped(old(k.S()), k.S(), r, start, end, f)
    ensures ok ==> StaysNoCow(old(k.S()), k.S(), r)
    ensures !ok ==> FreeFrames(k.S()) == {} && ElsewhereSame(old(k.S()), k.S(), r, start, end)
  {
    hide Inv, PathAt, PutStep, RangeMapped, PageIn, NoCow, FreeFrames, AllViews, ElsewhereSame;
    ghost var s0 := k.S();
    NothingMapped(s0, r, start, f);
    var addr := start;
    while addr < end
      invariant start <= addr <= end && addr % PAGE_SIZE == 0
      invariant k.Valid() && r in k.roots
      invariant RangeMapped(s0, k.S(), r, start, addr, f) && StaysNoCow(s0, k.S(), r)
      invariant forall a | PageIn(a, addr, end) :: NoCow(k.S(), r, PathAt(a))
      decreases end - addr
    {
      ghost var s := k.S();
      FirstPage(addr, end);
      ok := MapNewPageAt(k, r, addr, f, residues(addr));
      if !ok { PartlyMapped(s0, s, k.S(), r, start, addr, end, f); return; }
      RangeExtends(s0, s, k.S(), r, start, addr, residues(addr), f);
      forall a | PageIn(a, addr + 4096, end) ensures NoCow(k.S(), r, PathAt(a)) {
        RestOfRange(a, addr, end);
        AboveIsLow(a, addr, end);
      }
      RestOfRange(addr, addr, end);
      NextPage(addr, start, addr);
      addr := addr + 4096;
    }
    ok := true;
  }

  /** Nobody sees any change but r, and r none outside the range. */
  ghost predicate ElsewhereSame(s0: State, s: State, r: nat, start: nat, end: nat) {
    forall r', p | r' in s0.roots && PagePath(p) && (r' != r || !RangePath(p, start, end)) ::
      Agree(AllViews(s), AllViews(s0), r', p)
  }

  lemma PartlyMapped(s0: State, s: State, s': State, r: nat, start: nat, addr: nat, end: nat, f: Flags)
    requires RangeMapped(s0, s, r, start, addr, f) && addr <= end && AllViews(s') == AllViews(s)
    ensures ElsewhereSame(s0, s', r, start, end)
  {
    hide PathAt, AllViews, Agree;
    forall r', p | r' in s0.roots && PagePath(p) && (r' != r || !RangePath(p, start, end))
      ensures SamePage(s0, s, r', p)
    {
      if a :| PageIn(a, start, addr) && PathAt(a) == p { assert PageIn(a, start, end); }
    }
  }

  lemma ElsewhereTwice(s0: State, s1: State, s: State, r: nat, start: nat, end: nat, f: Flags)
    requires RangeMapped(s0, s1, r, start, end, f) && ElsewhereSame(s1, s, r, start, end)
    ensures ElsewhereSame(s0, s, r, start, end)
  {
    hide PathAt, AllViews, RangePath;
    forall r', p | r' in s0.roots && PagePath(p) && (r' != r || !RangePath(p, start, end))
      ensures Agree(AllViews(s), AllViews(s0), r', p)
    {
      assert SamePage(s0, s1, r', p) && Agree(AllViews(s), AllViews(s1), r', p);
    }
  }

  lemma FirstPage(addr: nat, end: nat)
    requires addr < end && addr % PAGE_SIZE == 0
    ensures PageIn(addr, addr, end)
  {}

  lemma NothingMapped(s: State, r: nat, start: nat, f: Flags)
    ensures RangeMapped(s, s, r, start, start, f)
  {
    forall a ensures !PageIn(a, start, start) {}
  }

  lemma AboveIsLow(a: nat, addr: nat, end: nat)
    requires end <= USER_END && PageIn(a, addr, end)
    ensures a < USER_END && a % PAGE_SIZE == 0 && PagePath(PathAt(a))
  {
    UserHalf(a);
  }

  /** Two pages of a mapped range never share a frame. */
  lemma RangeFramesDistinct(s0: State, s: State, r: nat, start: nat, end: nat, f: Flags, a: nat, b: nat)
    requires Inv(s) && r in s.roots && end <= USER_END && RangeMapped(s0, s, r, start, end, f)
    requires PageIn(a, start, end) && PageIn(b, start, end) && a != b
    ensures Walk(s.mem, r, PathAt(a)).Some? && Walk(s.mem, r, PathAt(b)).Some?
    ensures Walk(s.mem, r, PathAt(a)) != Walk(s.mem, r, PathAt(b))
  {
    assert PageDone(s0, s, r, PathAt(a), f) && PageDone(s0, s, r, PathAt(b), f);
    UserHalf(a);
    UserHalf(b);
    if PathAt(a) == PathAt(b) { PathInjective(a, b); }
    assert Reaches(s, r, PathAt(a), Walk(s.mem, r, PathAt(a)).value);
    assert Reaches(s, r, PathAt(b), Walk(s.mem, r, PathAt(b)).value);
  }

  // ------------------------------------------------- a loaded segment

  /** A page of a loaded segment: the final rights, on a frame that was free and is
      managed, or on the page's old frame. */
  ghost predicate SegmentPage(s0: State, s: State, r: nat, q: seq<nat>, f: Flags)
    requires q != []
  {
    && (r, q) in AllViews(s) && AllViews(s)[(r, q)].rights == Rights(f.user, f.writable, !f.noExecute)
    && Ent(s.mem, r, q).Some? && HasFlags(Ent(s.mem, r, q).value, f)
    && var e' := Ent(s.mem, r, q).value;
       match Ent(s0.mem, r, q)
       case None => e'.frame !in s0.used && e'.managed
       case Some(e) => e'.frame == e.frame && e'.managed == e.managed
  }

  /** `ElfMemoryArea::map` but for the file: mapped for the kernel first, so that it can
      be filled, and then remapped with the segment's own rights.  Every page ends up
      with exactly those, and nothing else changes for anybody. */
  method MapSegment(k: CoW, r: nat, base: nat, limit: nat, f: Flags, residues: nat -> seq<bv8>) returns (ok: bool)
    requires k.Valid() && r in k.roots && forall a :: |residues(a)| == PAGE_SIZE
    requires base % PAGE_SIZE == 0 && limit % PAGE_SIZE == 0 && base <= limit <= USER_END
    requires forall a | PageIn(a, base, limit) :: NoCow(k.S(), r, PathAt(a))
    modifies k.mem, k.phys, k.phys.bitmap, k.phys.refCount
    ensures k.Valid()
    ensures !ok ==> FreeFrames(k.S()) == {} && ElsewhereSame(old(k.S()), k.S(), r, base, limit)
    ensures ok ==> forall a | PageIn(a, base, limit) :: SegmentPage(old(k.S()), k.S(), r, PathAt(a), f)
    ensures ok ==> forall r', p | r' in k.roots && PagePath(p) && (r' != r || !RangePath(p, base, limit)) ::
      SamePage(old(k.S()), k.S(), r', p)
    ensures ok ==> StaysNoCow(old(k.S()), k.S(), r)
  {
    KernelRights();
    hide Inv, PathAt, RangeMapped, PageIn, NoCow, FreeFrames, ElsewhereSame, SegmentPage, SamePage, RangePath,
      StaysNoCow;
    ghost var s0 := k.S();
    ok := MapNewPages(k, r, base, limit, KERNEL_FLAGS, residues);
    if !ok { return; }
    ghost var s1 := k.S();
    forall a | PageIn(a, base, limit) ensures NoCow(s1, r, PathAt(a)) { StillNoCow(s0, s1, r, a, base, limit); }
    ok := MapNewPages(k, r, base, limit, f, residues);
    if !ok { ElsewhereTwice(s0, s1, k.S(), r, base, limit, KERNEL_FLAGS); return; }
    forall a | PageIn(a, base, limit) ensures SegmentPage(s0, k.S(), r, PathAt(a), f) {
      MappedTwice(s0, s1, k.S(), r, base, limit, f, a);
    }
    NoCowTwice(s0, s1, k.S(), r);
    forall r', p | r' in s0.roots && PagePath(p) && (r' != r || !RangePath(p, base, limit))
      ensures SamePage(s0, k.S(), r', p)
    {
      OutsideTwice(s0, s1, k.S(), r, base, limit, f, r', p);
    }
  }

  lemma NoCowTwice(s0: State, s1: State, s: State, r: nat)
    requires StaysNoCow(s0, s1, r) && StaysNoCow(s1, s, r)
    ensures StaysNoCow(s0, s, r)
  {
    hide NoCow;
  }

  lemma StillNoCow(s: State, s': State, r: nat, a: nat, base: nat, limit: nat)
    requires StaysNoCow(s, s', r) && limit <= USER_END && PageIn(a, base, limit) && NoCow(s, r, PathAt(a))
    ensures NoCow(s', r, PathAt(a))
  {
    UserHalf(a);
  }

  lemma MappedTwice(s0: State, s1: State, s: State, r: nat, base: nat, limit: nat, f: Flags, a: nat)
    requires RangeMapped(s0, s1, r, base, limit, KERNEL_FLAGS) && RangeMapped(s1, s, r, base, limit, f)
    requires PageIn(a, base, limit)
    ensures SegmentPage(s0, s, r, PathAt(a), f)
  {
    KernelRights();
    hide PathAt, AllViews;
    assert PageDone(s0, s1, r, PathAt(a), KERNEL_FLAGS) && PageDone(s1, s, r, PathAt(a), f);
  }

  lemma OutsideTwice(s0: State, s1: State, s: State, r: nat, base: nat, limit: nat, f: Flags, r': nat, p: seq<nat>)
    requires RangeMapped(s0, s1, r, base, limit, KERNEL_FLAGS) && RangeMapped(s1, s, r, base, limit, f)
    requires r' in s0.roots && PagePath(p) && (r' != r || !RangePath(p, base, limit))
    ensures SamePage(s0, s, r', p)
  {
    hide PathAt, SamePage, RangePath, PageDone;
    SameTwice(s0, s1, s, r', p);
  }
}
