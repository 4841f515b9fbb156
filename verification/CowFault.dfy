/**
 What one successful run of the page-fault handler does to the state, and why it
 keeps the invariant and every view.
 */
module CowFault {
  import opened PageTables
  import opened AddressSpaces

  /** One handler run for page path `q` of address space `root`: `frames[j]` is
      the frame at depth j of the path, exactly the entries deeper than `k` are
      copy-on-write, and `copies[j]` is the new frame for depth j > k. */
  datatype Repair = Repair(root: nat, q: seq<nat>, frames: seq<nat>, k: nat, copies: seq<nat>)
  {
    ghost predicate Shaped() {
      PagePath(q) && |frames| == |copies| == LEVELS + 1 && k < LEVELS
    }

    ghost function Replaced(): set<nat> requires Shaped() {
      set j | k < j <= LEVELS :: frames[j]
    }

    ghost function New(): set<nat> requires Shaped() {
      set j | k < j <= LEVELS :: copies[j]
    }

    /** p is one of the prefixes of q whose frame is replaced. */
    predicate Covers(r: nat, p: seq<nat>) {
      r == root && k < |p| && p <= q
    }
  }

  /** Table t with entry i resolved to point at `target`. */
  function Patched(mem: seq<Frame>, t: nat, i: nat, target: nat): Frame
    requires IsTable(mem, t) && i < ENTRIES
  {
    Table(mem[t].es[i := mem[t].es[i].Resolve(target)])
  }

  ghost predicate OnPath(s: State, c: Repair) {
    && c.Shaped() && c.root in s.roots && c.frames[0] == c.root
    && (forall j :: 0 <= j < LEVELS ==> c.q[j] < ENTRIES && IsTable(s.mem, c.frames[j]))
    && IsData(s.mem, c.frames[LEVELS])
    && (forall j :: 0 <= j < LEVELS ==>
          var e := s.mem[c.frames[j]].es[c.q[j]];
          e.present && e.frame == c.frames[j + 1] && (e.cow <==> c.k <= j))
  }

  ghost predicate FreshCopies(s: State, c: Repair) {
    && c.Shaped()
    && (forall j :: c.k < j <= LEVELS ==> c.copies[j] < |s.mem| && c.copies[j] !in s.used)
    && (forall i, j :: c.k < i < j <= LEVELS ==> c.copies[i] != c.copies[j])
  }

  /** `mem'` is `mem` with a chain of copies for the depths below k, hung under
      the table at depth k. */
  ghost predicate Chained(s: State, mem': seq<Frame>, c: Repair) {
    && OnPath(s, c) && FreshCopies(s, c)
    && |mem'| == |s.mem|
    && (forall f :: 0 <= f < |s.mem| && f != c.frames[c.k] && f !in c.New() ==> mem'[f] == s.mem[f])
    && mem'[c.copies[LEVELS]] == s.mem[c.frames[LEVELS]]
    && (forall j :: c.k < j < LEVELS ==> mem'[c.copies[j]] == Patched(s.mem, c.frames[j], c.q[j], c.copies[j + 1]))
    && mem'[c.frames[c.k]] == Patched(s.mem, c.frames[c.k], c.q[c.k], c.copies[c.k + 1])
  }

  /** One reference is dropped on every replaced frame; a frame whose count was
      one is released. */
  ghost predicate Recounted(s: State, s': State, c: Repair) {
    && c.Shaped() && |s'.refs| == |s.refs|
    && (forall f :: f in s'.used <==>
      f in c.New() || (f in s.used && !(f in c.Replaced() && f < |s.refs| && s.refs[f] == 1)))
    && (forall f :: f in s'.used && f < |s.refs| ==>
          if f in c.New() then s'.refs[f] == 1
          else if f in c.Replaced() then s'.refs[f] + 1 == s.refs[f]
          else s'.refs[f] == s.refs[f])
  }

  ghost predicate FaultStep(s: State, s': State, c: Repair) {
    && Chained(s, s'.mem, c) && Recounted(s, s', c)
    && s'.roots == s.roots && s'.reserved == s.reserved
  }

  lemma {:induction false} FramesOnPath(s: State, c: Repair, j: nat)
    requires OnPath(s, c) && j <= LEVELS
    ensures Walk(s.mem, c.root, c.q[..j]) == Some(c.frames[j])
    ensures j > 0 ==> Ent(s.mem, c.root, c.q[..j]) == Lookup(s.mem, c.frames[j - 1], c.q[j - 1])
  {
    if j > 0 {
      FramesOnPath(s, c, j - 1);
      assert c.q[..j] == c.q[..j - 1] + [c.q[j - 1]];
      WalkSnoc(s.mem, c.root, c.q[..j - 1], c.q[j - 1]);
    }
  }

  /** The table the handler writes in place belongs to the faulting address space alone. */
  lemma SoleOwner(s: State, c: Repair, r: nat, p: seq<nat>)
    requires RootsOk(s) && Typed(s) && Private(s) && OnPath(s, c)
    requires Reaches(s, r, p, c.frames[c.k])
    ensures r == c.root && p == c.q[..c.k]
  {
    FramesOnPath(s, c, c.k);
    if c.k == 0 {
      assert c.q[..0] == [];
      assert Reaches(s, r, [], r);
    } else {
      assert Selects(s, c.root, c.q[..c.k], s.mem[c.frames[c.k - 1]].es[c.q[c.k - 1]]);
    }
  }

  /** Where path p of address space r leads once the repair is done. */
  ghost function WalkAfter(s: State, c: Repair, r: nat, p: seq<nat>): Option<nat>
    requires c.Shaped()
  {
    if c.Covers(r, p) then Some(c.copies[|p|]) else Walk(s.mem, r, p)
  }

  /** The entry path p of address space r selects once the repair is done. */
  ghost function EntAfter(s: State, c: Repair, r: nat, p: seq<nat>): Option<Entry>
    requires c.Shaped() && p != []
  {
    match Ent(s.mem, r, p)
    case None => None
    case Some(e) => Some(if c.Covers(r, p) then e.Resolve(c.copies[|p|]) else e)
  }

  /** The handler repoints the replaced prefixes of q and nothing else: every
      other path of every address space selects the same entry as before. */
  lemma {:induction false} FaultEntries(s: State, mem': seq<Frame>, c: Repair, r: nat, p: seq<nat>)
    requires RootsOk(s) && Typed(s) && Private(s) && Chained(s, mem', c)
    requires r in s.roots && UserPath(p)
    ensures Walk(mem', r, p) == WalkAfter(s, c, r, p)
    ensures p != [] ==> Ent(mem', r, p) == EntAfter(s, c, r, p)
    decreases |p|
  {
    hide RootsOk, Typed, Private, Chained;
    ChainedParts(s, mem', c);
    if p != [] {
      var front := p[..|p| - 1];
      FaultEntries(s, mem', c, r, front);
      FaultEntry(s, mem', c, r, front, p[|p| - 1]);
      assert p == front + [p[|p| - 1]];
      EntGivesWalk(s, mem', c, r, p);
    }
  }

  lemma EntGivesWalk(s: State, mem': seq<Frame>, c: Repair, r: nat, p: seq<nat>)
    requires c.Shaped() && p != []
    requires Ent(mem', r, p) == EntAfter(s, c, r, p) && (c.Covers(r, p) ==> Ent(s.mem, r, p).Some?)
    ensures Walk(mem', r, p) == WalkAfter(s, c, r, p)
  {}

  lemma FaultEntry(s: State, mem': seq<Frame>, c: Repair, r: nat, front: seq<nat>, i: nat)
    requires RootsOk(s) && Typed(s) && Private(s) && Chained(s, mem', c)
    requires r in s.roots && UserPath(front + [i])
    requires Walk(mem', r, front) == WalkAfter(s, c, r, front)
    ensures Ent(mem', r, front + [i]) == EntAfter(s, c, r, front + [i])
    ensures c.Covers(r, front + [i]) ==> Ent(s.mem, r, front + [i]).Some?
  {
    hide RootsOk, Typed, Private, Chained, OnPath, FreshCopies, Walk, Ent, Lookup;
    ChainedParts(s, mem', c);
    WalkSnoc(s.mem, r, front, i);
    WalkSnoc(mem', r, front, i);
    SnocPrefix(front, i, c.q);
    if r == c.root && front == c.q[..|front|] {
      FramesOnPath(s, c, |front|);
    }
    if c.Covers(r, front) {
      CoveredTable(s, mem', c, |front|, i);
    } else if Walk(s.mem, r, front).Some? {
      var u := Walk(s.mem, r, front).value;
      KeptFrame(s, c, r, front, u);
      UncoveredTable(s, mem', c, u, i);
    }
  }

  lemma ChainedParts(s: State, mem': seq<Frame>, c: Repair)
    requires Chained(s, mem', c)
    ensures OnPath(s, c) && FreshCopies(s, c) && c.Shaped()
    ensures forall j :: c.k < j <= LEVELS ==> Repointed(s, c, j).Some?
  {
    forall j | c.k < j <= LEVELS ensures Repointed(s, c, j).Some? { StepPresent(s, c, j - 1); }
  }

  lemma StepPresent(s: State, c: Repair, i: nat)
    requires OnPath(s, c) && i < LEVELS
    ensures Lookup(s.mem, c.frames[i], c.q[i]).Some?
  {
    var e := s.mem[c.frames[i]].es[c.q[i]];
    assert e.frame == c.frames[i + 1];
  }

  lemma KeptFrame(s: State, c: Repair, r: nat, p: seq<nat>, u: nat)
    requires RootsOk(s) && Typed(s) && Private(s) && OnPath(s, c) && FreshCopies(s, c)
    requires Reaches(s, r, p, u)
    ensures u < |s.mem| && u !in c.New()
    ensures u == c.frames[c.k] <==> r == c.root && p == c.q[..c.k]
  {
    assert u in s.used;
    FramesOnPath(s, c, c.k);
    if u == c.frames[c.k] {
      SoleOwner(s, c, r, p);
    }
  }

  lemma SnocPrefix(front: seq<nat>, i: nat, q: seq<nat>)
    ensures front <= q <==> |front| <= |q| && front == q[..|front|]
    ensures front + [i] <= q <==> |front| < |q| && front == q[..|front|] && i == q[|front|]
  {
    if |front| < |q| && front == q[..|front|] && i == q[|front|] {
      assert front + [i] == q[..|front| + 1];
    }
    if front + [i] <= q {
      assert front == (front + [i])[..|front|] == q[..|front|];
    }
  }

  /** The entry at depth j of q, repointed at the copy. */
  function Repointed(s: State, c: Repair, j: nat): Option<Entry>
    requires c.k < j <= LEVELS && |c.frames| == |c.copies| == LEVELS + 1 && |c.q| == LEVELS
  {
    match Lookup(s.mem, c.frames[j - 1], c.q[j - 1])
    case None => None
    case Some(e) => Some(e.Resolve(c.copies[j]))
  }

  lemma CoveredTable(s: State, mem': seq<Frame>, c: Repair, j: nat, i: nat)
    requires Chained(s, mem', c) && c.k < j < LEVELS
    ensures Lookup(mem', c.copies[j], i) ==
            if i == c.q[j] then Repointed(s, c, j + 1) else Lookup(s.mem, c.frames[j], i)
  {
    assert mem'[c.copies[j]] == Patched(s.mem, c.frames[j], c.q[j], c.copies[j + 1]);
    assert IsTable(mem', c.copies[j]);
  }

  lemma UncoveredTable(s: State, mem': seq<Frame>, c: Repair, u: nat, i: nat)
    requires Chained(s, mem', c) && u < |s.mem| && u !in c.New()
    ensures Lookup(mem', u, i) ==
            if u == c.frames[c.k] && i == c.q[c.k] then Repointed(s, c, c.k + 1) else Lookup(s.mem, u, i)
  {
    if u != c.frames[c.k] {
      assert mem'[u] == s.mem[u];
    }
  }

  // ------------------------------------------------- the invariant is kept

  /** The repairs that take s to s'. */
  ghost function Repairs(s: State, s': State): iset<Repair> {
    iset c | RootsOk(s) && Typed(s) && Private(s) && FaultStep(s, s', c)
  }

  lemma RepairParts(s: State, s': State, c: Repair)
    requires c in Repairs(s, s')
    ensures RootsOk(s) && Typed(s) && Private(s) && FaultStep(s, s', c) && c.Shaped() && s'.roots == s.roots
  {}

  lemma FaultReaches(s: State, s': State, c: Repair, r: nat, p: seq<nat>, f: nat)
    requires c in Repairs(s, s')
    ensures Reaches(s', r, p, f) <==> r in s.roots && UserPath(p) && WalkAfter(s, c, r, p) == Some(f)
    ensures Reaches(s', r, p, f) ==> (f in c.New() <==> c.Covers(r, p))
  {
    if r in s.roots && UserPath(p) {
      FaultEntries(s, s'.mem, c, r, p);
      if Reaches(s, r, p, f) {
        KeptFrame(s, c, r, p, f);
      }
    }
  }

  lemma FaultSelects(s: State, s': State, c: Repair, r: nat, p: seq<nat>, e': Entry) returns (e: Entry)
    requires c in Repairs(s, s')
    requires Selects(s', r, p, e')
    ensures c.Covers(r, p) ==> e.cow && e == s.mem[c.frames[|p| - 1]].es[c.q[|p| - 1]]
    ensures Selects(s, r, p, e) && e' == if c.Covers(r, p) then e.Resolve(c.copies[|p|]) else e
  {
    FaultEntries(s, s'.mem, c, r, p);
    e := Ent(s.mem, r, p).value;
    if c.Covers(r, p) {
      assert p == c.q[..|p|];
      FramesOnPath(s, c, |p|);
    }
  }

  /** A replaced frame is a counted frame. */
  lemma ReplacedIsCounted(s: State, c: Repair, j: nat)
    requires Typed(s) && OnPath(s, c) && c.k < j <= LEVELS
    ensures c.frames[j] in s.used && c.frames[j] !in s.reserved && c.frames[j] !in s.roots
    ensures Reaches(s, c.root, c.q[..j], c.frames[j]) && c.q[..j] != []
  {
    FramesOnPath(s, c, j);
    assert Reaches(s, c.root, c.q[..j], c.frames[j]);
  }

  /** A replaced frame that some other path still reaches is not released. */
  lemma StillCounted(s: State, c: Repair, r: nat, p: seq<nat>, j: nat)
    requires Typed(s) && Counted(s) && OnPath(s, c) && c.k < j <= LEVELS
    requires Reaches(s, r, p, c.frames[j]) && p != [] && !c.Covers(r, p)
    ensures c.frames[j] < |s.refs| && s.refs[c.frames[j]] > 1
  {
    ReplacedIsCounted(s, c, j);
    TwoPaths(s, c.frames[j], r, p, c.root, c.q[..j]);
  }

  lemma FaultRootTable(s: State, s': State, c: Repair, r: nat)
    requires RootsOk(s) && Typed(s) && FaultStep(s, s', c) && r in s.roots
    ensures KeepsUpper(s, s', r)
  {
    if r == c.frames[c.k] {
      if c.k > 0 {
        FramesOnPath(s, c, c.k);
        assert Reaches(s, c.root, c.q[..c.k], r);
      }
    } else {
      assert s'.mem[r] == s.mem[r];
    }
  }

  /** Kernel frames are neither replaced nor written. */
  lemma FaultReserved(s: State, s': State, c: Repair)
    requires RootsOk(s) && Typed(s) && FaultStep(s, s', c)
    ensures forall f :: f in s.reserved ==> s'.mem[f] == s.mem[f]
    ensures |s'.mem| == |s.mem| == |s'.refs| && s'.roots == s.roots && s'.reserved == s.reserved
    ensures forall f :: f in s'.used ==> f < |s'.mem|
  {
    WrittenFrame(s, c);
    hide OnPath, Typed;
  }

  lemma WrittenFrame(s: State, c: Repair)
    requires RootsOk(s) && Typed(s) && OnPath(s, c)
    ensures c.frames[c.k] !in s.reserved
  {
    FramesOnPath(s, c, c.k);
    assert Reaches(s, c.root, c.q[..c.k], c.frames[c.k]);
  }

  lemma FaultKeepsTops(s: State, s': State, c: Repair)
    requires RootsOk(s) && Typed(s) && FaultStep(s, s', c)
    ensures s.reserved + s.roots <= s'.used
  {
    forall f | f in s.reserved + s.roots ensures f in s'.used {
      if f in c.Replaced() {
        var j :| c.k < j <= LEVELS && f == c.frames[j];
        ReplacedIsCounted(s, c, j);
        assert false;
      }
    }
  }

  lemma FaultRoots(s: State, s': State, c: Repair)
    requires RootsOk(s) && KernelHalf(s) && Typed(s) && FaultStep(s, s', c)
    ensures RootsOk(s') && KernelHalf(s')
  {
    hide RootsOk, KernelHalf, Typed, FaultStep, KeepsUpper;
    forall r | r in s.roots ensures KeepsUpper(s, s', r) { FaultRootTable(s, s', c, r); }
    FramesInRange(s);
    FaultReserved(s, s', c);
    FaultKeepsTops(s, s', c);
    RootsKept(s, s');
  }

  lemma FaultTyped(s: State, s': State, c: Repair)
    requires Inv(s) && FaultStep(s, s', c)
    ensures Typed(s')
  {
    forall r: nat, p: seq<nat>, f: nat | Reaches(s', r, p, f) && p != []
      ensures f in s'.used && f !in s'.reserved && f !in s'.roots
      ensures if |p| < LEVELS then IsTable(s'.mem, f) else IsData(s'.mem, f)
    {
      FaultReaches(s, s', c, r, p, f);
      if c.Covers(r, p) {
        CopyTyped(s, s', c, |p|);
      } else {
        assert Reaches(s, r, p, f);
        KeptTyped(s, s', c, r, p, f);
      }
    }
  }

  lemma KeptTyped(s: State, s': State, c: Repair, r: nat, p: seq<nat>, f: nat)
    requires c in Repairs(s, s') && Counted(s)
    requires Reaches(s, r, p, f) && p != [] && !c.Covers(r, p)
    ensures f in s'.used && f !in s'.reserved && f !in s'.roots
    ensures if |p| < LEVELS then IsTable(s'.mem, f) else IsData(s'.mem, f)
  {
    KeptFrame(s, c, r, p, f);
    if f in c.Replaced() {
      var j :| c.k < j <= LEVELS && f == c.frames[j];
      StillCounted(s, c, r, p, j);
    }
    if f != c.frames[c.k] { assert s'.mem[f] == s.mem[f]; }
  }

  lemma CopyTyped(s: State, s': State, c: Repair, j: nat)
    requires RootsOk(s) && FaultStep(s, s', c) && c.k < j <= LEVELS
    ensures c.copies[j] in s'.used && c.copies[j] !in s'.reserved && c.copies[j] !in s'.roots
    ensures if j < LEVELS then IsTable(s'.mem, c.copies[j]) else IsData(s'.mem, c.copies[j])
  {
    assert c.copies[j] in c.New();
    assert c.copies[j] !in s.used;
    if j < LEVELS {
      assert s'.mem[c.copies[j]] == Patched(s.mem, c.frames[j], c.q[j], c.copies[j + 1]);
    }
  }

  /** New frames have one path; two paths to an old frame were there before. */
  lemma SameFrame(s: State, s': State, c: Repair, r: nat, p: seq<nat>, r': nat, p': seq<nat>, f: nat)
    requires c in Repairs(s, s')
    requires Reaches(s', r, p, f) && Reaches(s', r', p', f)
    ensures (r == r' && p == p') || (Reaches(s, r, p, f) && Reaches(s, r', p', f))
  {
    FaultReaches(s, s', c, r, p, f);
    FaultReaches(s, s', c, r', p', f);
    if c.Covers(r, p) {
      assert |p| == |p'|;
    }
  }

  lemma FaultTrees(s: State, s': State, c: Repair)
    requires Inv(s) && FaultStep(s, s', c)
    ensures Trees(s')
  {
    forall r: nat, p: seq<nat>, p': seq<nat>, f: nat | Reaches(s', r, p, f) && Reaches(s', r, p', f) ensures p == p' {
      SameFrame(s, s', c, r, p, r, p', f);
    }
  }

  lemma FaultEntryFlags(s: State, s': State, c: Repair)
    requires Inv(s) && FaultStep(s, s', c)
    ensures CowReadOnly(s')
    ensures forall r: nat, p, e | Selects(s', r, p, e) && |p| < LEVELS :: e.PassesOn()
  {
    assert c in Repairs(s, s');
    forall r: nat, p: seq<nat>, e | Selects(s', r, p, e)
      ensures (e.cow ==> !e.writable) && (|p| < LEVELS ==> e.PassesOn())
    {
      FaultEntryFlag(s, s', c, r, p, e);
    }
  }

  lemma FaultEntryFlag(s: State, s': State, c: Repair, r: nat, p: seq<nat>, e: Entry)
    requires c in Repairs(s, s') && CowReadOnly(s) && FlagsUp(s) && Selects(s', r, p, e)
    ensures (e.cow ==> !e.writable) && (|p| < LEVELS ==> e.PassesOn())
  {
    hide Repairs;
    var e0 := FaultSelects(s, s', c, r, p, e);
  }

  lemma FaultFlags(s: State, s': State, c: Repair)
    requires Inv(s) && FaultStep(s, s', c)
    ensures CowReadOnly(s') && CowDown(s') && FlagsUp(s')
  {
    FaultEntryFlags(s, s', c);
    forall r: nat, p: seq<nat>, e, i: nat, e' | Selects(s', r, p, e) && Selects(s', r, p + [i], e')
      ensures (e.cow ==> e'.cow) && (e'.user ==> e.user)
    {
      FaultChildFlags(s, s', c, r, p, e, i, e');
    }
  }

  lemma FaultChildFlags(s: State, s': State, c: Repair, r: nat, p: seq<nat>, e: Entry, i: nat, e': Entry)
    requires c in Repairs(s, s') && CowDown(s) && FlagsUp(s)
    requires Selects(s', r, p, e) && Selects(s', r, p + [i], e')
    ensures (e.cow ==> e'.cow) && (e'.user ==> e.user)
  {
    var e0 := FaultSelects(s, s', c, r, p, e);
    var e1 := FaultSelects(s, s', c, r, p + [i], e');
    assert Selects(s, r, p, e0) && Selects(s, r, p + [i], e1);
    if e.cow && c.Covers(r, p + [i]) {
      SnocPrefix(p, i, c.q);
      FramesOnPath(s, c, |p|);
    }
  }

  lemma FaultPrivate(s: State, s': State, c: Repair)
    requires Inv(s) && FaultStep(s, s', c)
    ensures Private(s')
  {
    forall r: nat, p: seq<nat>, e, r': nat, p': seq<nat> | Selects(s', r, p, e) && !e.cow
      && Reaches(s', r', p', e.frame)
      ensures r' == r && p' == p
    {
      var e0 := FaultSelects(s, s', c, r, p, e);
      assert Reaches(s', r, p, e.frame);
      SameFrame(s, s', c, r, p, r', p', e.frame);
    }
  }

  /** How the path set of one frame changes. */
  lemma FaultMember(s: State, s': State, c: Repair, f: nat, r: nat, p: seq<nat>)
    requires c in Repairs(s, s')
    ensures (r, p) in Paths(s', f) <==>
            if c.Covers(r, p) then r in s.roots && f == c.copies[|p|] else (r, p) in Paths(s, f)
  {
    InPaths(s, f, r, p);
    InPaths(s', f, r, p);
    FaultReaches(s, s', c, r, p, f);
    assert c.Covers(r, p) ==> UserPath(p);
  }

  lemma FaultNewCount(s: State, s': State, c: Repair, j: nat)
    requires c in Repairs(s, s')
    requires c.k < j <= LEVELS
    ensures Paths(s', c.copies[j]) == {(c.root, c.q[..j])}
  {
    var f := c.copies[j];
    RepairParts(s, s', c);
    hide Repairs, Paths;
    forall r: nat, p: seq<nat> ensures (r, p) in Paths(s', f) <==> (r, p) == (c.root, c.q[..j]) {
      FaultMember(s, s', c, f, r, p);
      NewMember(s, s', c, j, r, p);
    }
  }

  lemma NewMember(s: State, s': State, c: Repair, j: nat, r: nat, p: seq<nat>)
    requires c in Repairs(s, s') && c.k < j <= LEVELS
    ensures c.Covers(r, p) ==> c.k < |p| <= LEVELS && p == c.q[..|p|] && (c.copies[j] == c.copies[|p|] <==> |p| == j)
    ensures !c.Covers(r, p) ==> (r, p) !in Paths(s, c.copies[j]) && (r, p) != (c.root, c.q[..j])
    ensures c.root in s.roots
  {
    InPaths(s, c.copies[j], r, p);
  }

  lemma FaultOldCount(s: State, s': State, c: Repair, j: nat)
    requires c in Repairs(s, s') && Trees(s)
    requires c.k < j <= LEVELS
    ensures Paths(s', c.frames[j]) == Paths(s, c.frames[j]) - {(c.root, c.q[..j])}
    ensures (c.root, c.q[..j]) in Paths(s, c.frames[j])
  {
    var f := c.frames[j];
    RepairParts(s, s', c);
    OldFrame(s, s', c, j);
    hide Repairs, Paths, Trees;
    forall r: nat, p: seq<nat>
      ensures (r, p) in Paths(s', f) <==> (r, p) in Paths(s, f) && (r, p) != (c.root, c.q[..j])
    {
      FaultMember(s, s', c, f, r, p);
      if c.Covers(r, p) { CoveredMember(s, s', c, j, r, p); }
    }
  }

  lemma OldFrame(s: State, s': State, c: Repair, j: nat)
    requires c in Repairs(s, s') && c.k < j <= LEVELS
    ensures (c.root, c.q[..j]) in Paths(s, c.frames[j]) && c.Covers(c.root, c.q[..j])
  {
    ReplacedIsCounted(s, c, j);
    InPaths(s, c.frames[j], c.root, c.q[..j]);
  }

  /** Of the replaced prefixes only the one at its own depth led to an old frame, and
      none does any more. */
  lemma CoveredMember(s: State, s': State, c: Repair, j: nat, r: nat, p: seq<nat>)
    requires c in Repairs(s, s') && Trees(s) && c.k < j <= LEVELS && c.Covers(r, p)
    ensures c.frames[j] != c.copies[|p|]
    ensures (r, p) in Paths(s, c.frames[j]) <==> p == c.q[..j]
  {
    assert p == c.q[..|p|];
    ReplacedIsCounted(s, c, |p|);
    ReplacedIsCounted(s, c, j);
    assert c.copies[|p|] !in s.used;
    InPaths(s, c.frames[j], r, p);
  }

  lemma FaultKeptCount(s: State, s': State, c: Repair, f: nat)
    requires c in Repairs(s, s')
    requires f !in c.New() && f !in c.Replaced()
    ensures Paths(s', f) == Paths(s, f)
  {
    forall r: nat, p: seq<nat> ensures (r, p) in Paths(s', f) <==> (r, p) in Paths(s, f) {
      FaultMember(s, s', c, f, r, p);
      if c.Covers(r, p) {
        assert p == c.q[..|p|];
        ReplacedIsCounted(s, c, |p|);
        InPaths(s, f, r, p);
      }
    }
  }

  lemma FaultCounted(s: State, s': State, c: Repair)
    requires Inv(s) && FaultStep(s, s', c)
    ensures forall f :: f in s'.used && f !in s'.reserved && f !in s'.roots ==>
              f < |s'.refs| && s'.refs[f] == |Paths(s', f)| && s'.refs[f] > 0
  {
    forall f | f in s'.used && f !in s'.reserved && f !in s'.roots
      ensures f < |s'.refs| && s'.refs[f] == |Paths(s', f)| && s'.refs[f] > 0
    {
      if f in c.New() {
        var j :| c.k < j <= LEVELS && f == c.copies[j];
        FaultNewCount(s, s', c, j);
      } else if f in c.Replaced() {
        var j :| c.k < j <= LEVELS && f == c.frames[j];
        FaultOldCount(s, s', c, j);
      } else {
        FaultKeptCount(s, s', c, f);
      }
    }
  }

  lemma FaultRootCounts(s: State, s': State, c: Repair)
    requires Inv(s) && FaultStep(s, s', c)
    ensures forall r :: r in s'.roots ==> r < |s'.refs| && s'.refs[r] == 1
  {
    forall r | r in s'.roots ensures r < |s'.refs| && s'.refs[r] == 1 {
      if r in c.Replaced() {
        var j :| c.k < j <= LEVELS && r == c.frames[j];
        ReplacedIsCounted(s, c, j);
        assert false;
      }
      FaultRoots(s, s', c);
    }
  }

  /** A handler run keeps the invariant: in particular every reference count is
      still the number of paths, and no count was decremented at zero. */
  lemma FaultKeepsInv(s: State, s': State, c: Repair)
    requires Inv(s) && FaultStep(s, s', c)
    ensures Inv(s')
  {
    FaultRoots(s, s', c);
    FaultTyped(s, s', c);
    FaultTrees(s, s', c);
    FaultFlags(s, s', c);
    FaultPrivate(s, s', c);
    FaultCounted(s, s', c);
    FaultRootCounts(s, s', c);
  }

  // ------------------------------------------------------ views are kept

  lemma SelectedIsReadOnly(s: State, r: nat, p: seq<nat>, e: Entry)
    requires CowReadOnly(s) && r in s.roots && UserPath(p) && p != [] && Ent(s.mem, r, p) == Some(e)
    ensures e.cow ==> !e.writable
  {
    assert Selects(s, r, p, e);
  }

  lemma FaultAccess(s: State, s': State, c: Repair, r: nat, p: seq<nat>)
    requires c in Repairs(s, s') && CowReadOnly(s) && r in s.roots && UserPath(p) && p != []
    ensures SameAccess(Ent(s.mem, r, p), Ent(s'.mem, r, p))
  {
    hide Repairs, Ent, CowReadOnly;
    RepairParts(s, s', c);
    FaultEntries(s, s'.mem, c, r, p);
    if Ent(s.mem, r, p).Some? {
      SelectedIsReadOnly(s, r, p, Ent(s.mem, r, p).value);
      var e := FaultSelects(s, s', c, r, p, Ent(s'.mem, r, p).value);
    }
  }

  lemma FaultContents(s: State, s': State, c: Repair, r: nat, q: seq<nat>)
    requires c in Repairs(s, s') && r in s.roots && PagePath(q)
    ensures SameContents(s, r, s', r, q)
  {
    FaultEntries(s, s'.mem, c, r, q);
    if c.Covers(r, q) {
      assert q == c.q[..LEVELS];
      FramesOnPath(s, c, LEVELS);
    } else if Walk(s.mem, r, q).Some? {
      FaultSamePage(s, s', c, r, q, Walk(s.mem, r, q).value);
    }
  }

  lemma FaultSamePage(s: State, s': State, c: Repair, r: nat, q: seq<nat>, f: nat)
    requires c in Repairs(s, s') && PagePath(q) && Reaches(s, r, q, f)
    ensures f < |s.mem| && s'.mem[f] == s.mem[f]
  {
    KeptFrame(s, c, r, q, f);
    assert f != c.frames[c.k];
  }

  lemma FaultView(s: State, s': State, c: Repair, r: nat, q: seq<nat>)
    requires c in Repairs(s, s') && CowReadOnly(s) && r in s.roots && PagePath(q) && s'.roots == s.roots
    ensures SameViewAt(s, s', r, q)
  {
    forall j | 1 <= j <= LEVELS ensures SameAccess(Ent(s.mem, r, q[..j]), Ent(s'.mem, r, q[..j])) {
      FaultAccess(s, s', c, r, q[..j]);
    }
    FaultContents(s, s', c, r, q);
    SameView(s, r, s', r, q);
  }

  /** A fault changes no view. */
  lemma FaultKeepsViews(s: State, s': State, c: Repair)
    requires Inv(s) && FaultStep(s, s', c)
    ensures AllViews(s') == AllViews(s)
  {
    assert c in Repairs(s, s');
    forall r, q | r in s.roots && PagePath(q) ensures SameViewAt(s, s', r, q) {
      FaultView(s, s', c, r, q);
    }
    SameViews(s, s');
  }

  /** After a handler run nothing on the faulting path is copy-on-write, and an
      entry is writable exactly when it was effectively writable before. */
  lemma FaultClearsPath(s: State, s': State, c: Repair, j: nat)
    requires c in Repairs(s, s') && CowReadOnly(s) && 1 <= j <= LEVELS
    ensures Ent(s.mem, c.root, c.q[..j]).Some? && Ent(s'.mem, c.root, c.q[..j]).Some?
    ensures var e, e' := Ent(s.mem, c.root, c.q[..j]).value, Ent(s'.mem, c.root, c.q[..j]).value;
            !e'.cow && (e'.writable <==> e.EffectivelyWritable()) && e'.user == e.user && e'.noExecute == e.noExecute
  {
    FramesOnPath(s, c, j);
    FaultEntries(s, s'.mem, c, c.root, c.q[..j]);
    var e := FaultSelects(s, s', c, c.root, c.q[..j], Ent(s'.mem, c.root, c.q[..j]).value);
  }
}
