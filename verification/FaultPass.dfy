/**
 The stages of the page-fault handler, told on state values: frames taken for
 copies, the final installation, and the clean-up when memory runs out.
 */
module FaultPass {
  import opened Basics
  import opened PageTables
  import opened AddressSpaces
  import opened CowFault
  import opened CowRuns
  import opened PhysMemory

  /** One `freePage`. */
  function DropFrame(s: State, f: nat): State
    requires f < |s.refs|
  {
    s.(refs := s.refs[f := Dec64(s.refs[f])], used := if s.refs[f] == 1 then s.used - {f} else s.used)
  }

  predicate AllBelow(fs: seq<nat>, n: nat) {
    forall i :: 0 <= i < |fs| ==> fs[i] < n
  }

  /** A list of frames dropped in order. */
  function DropAll(s: State, fs: seq<nat>): (s': State)
    requires AllBelow(fs, |s.refs|)
    ensures |s'.refs| == |s.refs|
    decreases |fs|
  {
    if fs == [] then s else DropAll(DropFrame(s, fs[0]), fs[1..])
  }

  lemma {:induction false} DropAllEffect(s: State, fs: seq<nat>)
    requires Distinct(fs) && AllBelow(fs, |s.refs|) && forall i :: 0 <= i < |fs| ==> s.refs[fs[i]] > 0
    ensures var s' := DropAll(s, fs);
      && s'.mem == s.mem && s'.roots == s.roots && s'.reserved == s.reserved && |s'.refs| == |s.refs|
      && (forall f :: 0 <= f < |s.refs| ==> s'.refs[f] == if f in fs then s.refs[f] - 1 else s.refs[f])
      && (forall f :: f in s'.used <==> f in s.used && !(f in fs && s.refs[f] == 1))
    decreases |fs|
  {
    if fs != [] {
      assert forall i :: 0 <= i < |fs| - 1 ==> fs[1..][i] == fs[i + 1];
      DropAllEffect(DropFrame(s, fs[0]), fs[1..]);
      assert forall f :: f in fs <==> f == fs[0] || f in fs[1..];
    }
  }

  /** s is s0 with the frames fs taken for scratch use; only they differ. */
  ghost predicate Scratch(s0: State, s: State, fs: seq<nat>) {
    && s.roots == s0.roots && s.reserved == s0.reserved
    && |s.mem| == |s0.mem| == |s.refs| == |s0.refs|
    && Distinct(fs) && AllBelow(fs, |s0.mem|) && (forall i :: 0 <= i < |fs| ==> fs[i] !in s0.used && s.refs[fs[i]] == 1)
    && (forall f :: f in s.used <==> f in s0.used || f in fs)
    && (forall f :: 0 <= f < |s0.mem| && f !in fs ==> s.mem[f] == s0.mem[f] && s.refs[f] == s0.refs[f])
  }

  lemma ScratchStarts(s0: State)
    requires |s0.mem| == |s0.refs|
    ensures Scratch(s0, s0, [])
  {}

  lemma ScratchAlloc(s0: State, s: State, fs: seq<nat>, f: nat, s': State)
    requires Scratch(s0, s, fs) && f < |s.mem| && f !in s.used
    requires s' == s.(refs := s.refs[f := 1], used := s.used + {f})
    ensures Scratch(s0, s', [f] + fs) && s'.mem == s.mem
  {}

  lemma ScratchWrite(s0: State, s: State, fs: seq<nat>, f: nat, fr: Frame)
    requires Scratch(s0, s, fs) && f in fs && f < |s.mem|
    ensures Scratch(s0, s.(mem := s.mem[f := fr]), fs)
  {}

  /** Clean-up leaves everything in use as it was. */
  lemma CleanedUp(s0: State, s: State, fs: seq<nat>)
    requires Scratch(s0, s, fs)
    ensures Unchanged(s0, DropAll(s, fs))
  {
    DropAllEffect(s, fs);
    assert DropAll(s, fs).used == s0.used;
  }

  /** Every frame taken was free, and there is one fewer. */
  lemma ScratchFree(s0: State, s: State, fs: seq<nat>)
    requires Scratch(s0, s, fs)
    ensures |FreeFrames(s0)| == |FreeFrames(s)| + |fs|
  {
    DistinctSize(fs);
    FreeOrTaken(s0, s, fs);
  }

  lemma FreeOrTaken(s0: State, s: State, fs: seq<nat>)
    requires Scratch(s0, s, fs)
    ensures FreeFrames(s0) == FreeFrames(s) + SetOf(fs) && FreeFrames(s) !! SetOf(fs)
  {
    forall f | f in fs ensures f in FreeFrames(s0) && f !in FreeFrames(s) {
      var i: nat :| i < |fs| && fs[i] == f;
    }
  }

  ghost function SetOf(fs: seq<nat>): set<nat> {
    set f | f in fs
  }

  lemma {:induction false} DistinctSize(fs: seq<nat>)
    requires Distinct(fs)
    ensures |SetOf(fs)| == |fs|
    decreases |fs|
  {
    if fs != [] {
      var rest := fs[1..];
      assert forall i: nat :: i < |rest| ==> rest[i] == fs[i + 1];
      DistinctSize(rest);
      assert SetOf(fs) == {fs[0]} + SetOf(rest);
      assert fs[0] !in SetOf(rest);
    } else {
      assert SetOf(fs) == {};
    }
  }

  // --------------------------------------------------------- the copies

  /** The faulting path: its frames, all entries present. */
  ghost predicate FaultPath(s: State, r: nat, q: seq<nat>, frames: seq<nat>) {
    && r in s.roots && PagePath(q) && |frames| == LEVELS + 1 && frames[0] == r
    && (forall j :: 0 <= j < LEVELS ==> q[j] < ENTRIES && IsTable(s.mem, frames[j]) && frames[j] in s.used)
    && IsData(s.mem, frames[LEVELS]) && frames[LEVELS] in s.used
    && (forall j :: 0 <= j < LEVELS ==>
      s.mem[frames[j]].es[q[j]].present && s.mem[frames[j]].es[q[j]].frame == frames[j + 1])
  }

  /** Copies for the depths from d down are complete. */
  ghost predicate Copied(s0: State, s: State, r: nat, q: seq<nat>, frames: seq<nat>, d: nat, copies: seq<nat>) {
    && FaultPath(s0, r, q, frames) && 0 < d <= LEVELS && |copies| == LEVELS + 1
    && Scratch(s0, s, copies[d..]) && AllBelow(copies[d..], |s.mem|)
    && (forall j :: d <= j <= LEVELS ==> copies[j] < |s.mem|)
    && s.mem[copies[LEVELS]] == s0.mem[frames[LEVELS]]
    && forall j :: d <= j < LEVELS ==> s.mem[copies[j]] == Patched(s0.mem, frames[j], q[j], copies[j + 1])
  }

  lemma FirstCopy(s0: State, s: State, r: nat, q: seq<nat>, frames: seq<nat>, copy: nat, s': State)
    requires FaultPath(s0, r, q, frames) && Scratch(s0, s, [copy]) && copy < |s.mem| && frames[LEVELS] < |s.mem|
    requires s' == s.(mem := s.mem[copy := s.mem[frames[LEVELS]]])
    ensures Copied(s0, s', r, q, frames, LEVELS, [0, 0, 0, 0, copy])
  {
    var copies := [0, 0, 0, 0, copy];
    assert copies[LEVELS..] == [copy];
    ScratchWrite(s0, s, [copy], copy, s.mem[frames[LEVELS]]);
  }

  lemma NextCopy(s0: State, s: State, r: nat, q: seq<nat>, frames: seq<nat>, d: nat, copies: seq<nat>, copy: nat,
      s1: State, s2: State)
    requires Copied(s0, s, r, q, frames, d + 1, copies) && 0 < d
    requires copy < |s.mem| && copy !in s.used && s1 == s.(refs := s.refs[copy := 1], used := s.used + {copy})
    requires IsTable(s1.mem, frames[d]) && q[d] < ENTRIES
    requires s2 == s1.(mem := s1.mem[copy := Patched(s1.mem, frames[d], q[d], copies[d + 1])])
    ensures Copied(s0, s2, r, q, frames, d, copies[d := copy])
  {
    hide Scratch, FaultPath, Patched;
    OnTheWay(s0, r, q, frames, d);
    ScratchSize(s0, s, copies[d + 1..]);
    var copies' := copies[d := copy];
    NextScratch(s0, s, d, copies, copy, s1, s2, Patched(s1.mem, frames[d], q[d], copies[d + 1]));
    ScratchKeeps(s0, s, copies[d + 1..], frames[d], copy);
    PatchedSame(s0.mem, s1.mem, frames[d], q[d], copies[d + 1]);
    forall j | d < j <= LEVELS ensures copies'[j] == copies[j] != copy && s2.mem[copies[j]] == s.mem[copies[j]] {
      assert copies[j] == copies[d + 1..][j - d - 1];
      ScratchUsed(s0, s, copies[d + 1..], j - d - 1);
    }
  }

  lemma OnTheWay(s: State, r: nat, q: seq<nat>, frames: seq<nat>, d: nat)
    requires FaultPath(s, r, q, frames) && d < LEVELS
    ensures |frames| == LEVELS + 1 && |q| == LEVELS
    ensures frames[d] in s.used && IsTable(s.mem, frames[d]) && q[d] < ENTRIES
  {}

  lemma ScratchSize(s0: State, s: State, fs: seq<nat>)
    requires Scratch(s0, s, fs)
    ensures |s.mem| == |s0.mem| == |s.refs|
  {}

  lemma PatchedSame(mem: seq<Frame>, mem': seq<Frame>, t: nat, i: nat, target: nat)
    requires IsTable(mem, t) && IsTable(mem', t) && i < ENTRIES && mem'[t] == mem[t]
    ensures Patched(mem', t, i, target) == Patched(mem, t, i, target)
  {}

  lemma NextScratch(s0: State, s: State, d: nat, copies: seq<nat>, copy: nat, s1: State, s2: State, fr: Frame)
    requires 0 < d < LEVELS && |copies| == LEVELS + 1 && Scratch(s0, s, copies[d + 1..])
    requires copy < |s.mem| == |s.refs| && copy !in s.used
      && s1 == s.(refs := s.refs[copy := 1], used := s.used + {copy})
    requires s2 == s1.(mem := s1.mem[copy := fr])
    ensures Scratch(s0, s2, copies[d := copy][d..]) && AllBelow(copies[d := copy][d..], |s.mem|)
  {
    assert copies[d := copy][d..] == [copy] + copies[d + 1..];
    ScratchAlloc(s0, s, copies[d + 1..], copy, s1);
    ScratchWrite(s0, s1, [copy] + copies[d + 1..], copy, fr);
  }

  lemma ScratchKeeps(s0: State, s: State, fs: seq<nat>, f: nat, copy: nat)
    requires Scratch(s0, s, fs) && f in s0.used && f < |s0.mem| && copy !in s.used
    ensures s.mem[f] == s0.mem[f] && f != copy
  {}

  lemma ScratchUsed(s0: State, s: State, fs: seq<nat>, i: nat)
    requires Scratch(s0, s, fs) && i < |fs|
    ensures fs[i] in s.used
  {}

  // ------------------------------------------------------ the installation

  lemma FramesDistinct(s: State, c: Repair)
    requires Inv(s) && OnPath(s, c)
    ensures var fs := c.frames[c.k + 1..];
      Distinct(fs) && forall i :: 0 <= i < |fs| ==> fs[i] in s.used && fs[i] < |s.refs| && s.refs[fs[i]] > 0
  {
    hide OnPath, CowReadOnly, CowDown, Private, FlagsUp;
    ShapedOnPath(s, c);
    var fs := c.frames[c.k + 1..];
    forall i | 0 <= i < |fs|
      ensures fs[i] == c.frames[c.k + 1 + i] && Reaches(s, c.root, c.q[..c.k + 1 + i], fs[i])
      ensures fs[i] in s.used && fs[i] < |s.refs| && s.refs[fs[i]] > 0
    {
      ReplacedIsCounted(s, c, c.k + 1 + i);
    }
    forall i, j | 0 <= i < j < |fs| ensures fs[i] != fs[j] {
      assert |c.q[..c.k + 1 + i]| != |c.q[..c.k + 1 + j]|;
    }
  }

  lemma ShapedOnPath(s: State, c: Repair)
    requires OnPath(s, c)
    ensures c.Shaped()
  {}

  lemma Tails(c: Repair)
    requires c.Shaped()
    ensures forall f :: f in c.copies[c.k + 1..] <==> f in c.New()
    ensures forall f :: f in c.frames[c.k + 1..] <==> f in c.Replaced()
    ensures forall j :: c.k < j <= LEVELS ==> c.copies[j] == c.copies[c.k + 1..][j - c.k - 1]
    ensures forall j :: c.k < j <= LEVELS ==> c.frames[j] == c.frames[c.k + 1..][j - c.k - 1]
  {}

  lemma CopiesAreFresh(s0: State, s: State, c: Repair)
    requires c.Shaped() && Scratch(s0, s, c.copies[c.k + 1..])
    ensures FreshCopies(s0, c)
  {
    Tails(c);
  }

  lemma InstalledMemory(s0: State, s: State, c: Repair, s2: State)
    requires OnPath(s0, c) && Copied(s0, s, c.root, c.q, c.frames, c.k + 1, c.copies)
    requires c.frames[c.k] < |s.mem| && IsTable(s.mem, c.frames[c.k])
    requires s2 == s.(mem := s.mem[c.frames[c.k] := Patched(s.mem, c.frames[c.k], c.q[c.k], c.copies[c.k + 1])])
    ensures Chained(s0, s2.mem, c)
  {
    hide OnPath, FreshCopies, Patched, FaultPath, Scratch;
    ShapedOnPath(s0, c);
    CopiesAreFresh(s0, s, c);
    KeptApart(s0, s, c);
    assert |s.mem| == |s0.mem| by { ScratchSize(s0, s, c.copies[c.k + 1..]); }
  }

  /** The table repointed in place is none of the copies, and still as it was. */
  lemma KeptApart(s0: State, s: State, c: Repair)
    requires OnPath(s0, c) && Copied(s0, s, c.root, c.q, c.frames, c.k + 1, c.copies)
    requires c.frames[c.k] < |s.mem| && IsTable(s.mem, c.frames[c.k])
    ensures c.q[c.k] < ENTRIES && IsTable(s0.mem, c.frames[c.k])
    ensures Patched(s.mem, c.frames[c.k], c.q[c.k], c.copies[c.k + 1])
      == Patched(s0.mem, c.frames[c.k], c.q[c.k], c.copies[c.k + 1])
    ensures forall j :: c.k < j <= LEVELS ==> c.copies[j] != c.frames[c.k]
    ensures forall f :: 0 <= f < |s0.mem| && f !in c.New() ==> s.mem[f] == s0.mem[f]
  {
    Tails(c);
    assert c.frames[c.k] in s0.used && c.frames[c.k] !in c.New();
  }

  /** Copies below depth k, the entry at depth k repointed, the replaced frames
      dropped: together one repair. */
  lemma Installed(s0: State, s: State, c: Repair, s2: State)
    requires Inv(s0) && OnPath(s0, c) && Copied(s0, s, c.root, c.q, c.frames, c.k + 1, c.copies)
    requires c.frames[c.k] < |s.mem| && IsTable(s.mem, c.frames[c.k])
    requires s2 == s.(mem := s.mem[c.frames[c.k] := Patched(s.mem, c.frames[c.k], c.q[c.k], c.copies[c.k + 1])])
    ensures AllBelow(c.frames[c.k + 1..], |s2.refs|)
    ensures FaultStep(s0, DropAll(s2, c.frames[c.k + 1..]), c)
  {
    hide OnPath, Inv, Chained;
    ShapedOnPath(s0, c);
    FramesDistinct(s0, c);
    InstalledMemory(s0, s, c, s2);
    RecountedAfter(s0, s2, c);
  }

  lemma RecountedAfter(s0: State, s: State, c: Repair)
    requires c.Shaped() && Scratch(s0, s.(mem := s0.mem), c.copies[c.k + 1..])
    requires var fs := c.frames[c.k + 1..];
      Distinct(fs) && forall i :: 0 <= i < |fs| ==> fs[i] in s0.used && fs[i] < |s0.refs| && s0.refs[fs[i]] > 0
    ensures AllBelow(c.frames[c.k + 1..], |s.refs|)
    ensures Recounted(s0, DropAll(s, c.frames[c.k + 1..]), c)
    ensures DropAll(s, c.frames[c.k + 1..]).mem == s.mem
    ensures DropAll(s, c.frames[c.k + 1..]).roots == s.roots && DropAll(s, c.frames[c.k + 1..]).reserved == s.reserved
  {
    hide DropAll, Recounted;
    ReplacedKept(s0, s, c);
    DropAllEffect(s, c.frames[c.k + 1..]);
    RecountedIs(s0, s, DropAll(s, c.frames[c.k + 1..]), c);
  }

  /** The replaced frames are none of the copies, and still have their counts. */
  lemma ReplacedKept(s0: State, s: State, c: Repair)
    requires c.Shaped() && Scratch(s0, s.(mem := s0.mem), c.copies[c.k + 1..])
    requires var fs := c.frames[c.k + 1..];
      forall i :: 0 <= i < |fs| ==> fs[i] in s0.used && fs[i] < |s0.refs| && s0.refs[fs[i]] > 0
    ensures var fs := c.frames[c.k + 1..];
      && |s.refs| == |s0.refs| && AllBelow(fs, |s.refs|)
      && forall i :: 0 <= i < |fs| ==> fs[i] !in c.copies[c.k + 1..] && s.refs[fs[i]] == s0.refs[fs[i]]
  {}

  lemma RecountedIs(s0: State, s: State, s': State, c: Repair)
    requires c.Shaped() && Scratch(s0, s.(mem := s0.mem), c.copies[c.k + 1..])
    requires var fs := c.frames[c.k + 1..];
      && AllBelow(fs, |s.refs|) && |s.refs| == |s0.refs| && |s'.refs| == |s.refs|
      && (forall i :: 0 <= i < |fs| ==> fs[i] !in c.copies[c.k + 1..] && s.refs[fs[i]] == s0.refs[fs[i]])
      && (forall f :: 0 <= f < |s.refs| ==> s'.refs[f] as int == if f in fs then s.refs[f] as int - 1 else s.refs[f])
      && (forall f :: f in s'.used <==> f in s.used && !(f in fs && s.refs[f] == 1))
    ensures Recounted(s0, s', c)
  {
    Tails(c);
  }

  // -------------------------------------------------------- the fault path

  /** Lookups along the path are the entries of its prefixes. */
  lemma AlongPath(s: State, r: nat, q: seq<nat>, t: nat, j: nat)
    requires j < |q| && Walk(s.mem, r, q[..j]) == Some(t)
    ensures Ent(s.mem, r, q[..j + 1]) == Lookup(s.mem, t, q[j])
    ensures Walk(s.mem, r, q[..j + 1]) == match Lookup(s.mem, t, q[j]) case None => None case Some(e) => Some(e.frame)
  {
    assert q[..j + 1] == q[..j] + [q[j]];
    WalkSnoc(s.mem, r, q[..j], q[j]);
  }

  lemma {:induction false} PathFrames(s: State, r: nat, q: seq<nat>, frames: seq<nat>, j: nat)
    requires FaultPath(s, r, q, frames) && j <= LEVELS
    ensures Walk(s.mem, r, q[..j]) == Some(frames[j])
    ensures j > 0 ==> Ent(s.mem, r, q[..j]) == Some(s.mem[frames[j - 1]].es[q[j - 1]])
  {
    if j > 0 {
      PathFrames(s, r, q, frames, j - 1);
      AlongPath(s, r, q, frames[j - 1], j - 1);
    } else {
      assert q[..0] == [];
    }
  }

  ghost function PathEntry(s: State, q: seq<nat>, frames: seq<nat>, j: nat): Entry
    requires j < LEVELS && |frames| == LEVELS + 1 && |q| == LEVELS && IsTable(s.mem, frames[j]) && q[j] < ENTRIES
  {
    s.mem[frames[j]].es[q[j]]
  }

  /** The entries above a private entry are private, those below a copy-on-write
      entry are copy-on-write. */
  lemma {:induction false} CowSuffix(s: State, r: nat, q: seq<nat>, frames: seq<nat>, i: nat, j: nat)
    requires CowDown(s) && FaultPath(s, r, q, frames) && i <= j < LEVELS
    ensures PathEntry(s, q, frames, i).cow ==> PathEntry(s, q, frames, j).cow
    decreases j
  {
    if i < j {
      CowSuffix(s, r, q, frames, i, j - 1);
      PathFrames(s, r, q, frames, j);
      PathFrames(s, r, q, frames, j + 1);
      assert q[..j + 1] == q[..j] + [q[j]];
      assert Selects(s, r, q[..j], PathEntry(s, q, frames, j - 1));
      assert Selects(s, r, q[..j] + [q[j]], PathEntry(s, q, frames, j));
    }
  }

  // ------------------------------------------------ what a repair takes

  /** The copy-on-write entries on a path. */
  ghost function CowEntries(s: State, r: nat, q: seq<nat>): set<nat> {
    set j: nat | 1 <= j <= |q| && Ent(s.mem, r, q[..j]).Some? && Ent(s.mem, r, q[..j]).value.cow
  }

  /** There are n free frames, and the first n temporary mappings succeed. */
  ghost predicate Enough(s: State, n: nat, mapped: seq<bool>) {
    n <= |FreeFrames(s)| && forall i: nat | i < n && i < |mapped| :: mapped[i]
  }

  /** ... for every copy-on-write entry of the path. */
  ghost predicate EnoughFor(s: State, r: nat, q: seq<nat>, mapped: seq<bool>) {
    Enough(s, |CowEntries(s, r, q)|, mapped)
  }

  /** The depths from d + 1 to n. */
  ghost function Depths(d: nat, n: nat): (js: set<nat>)
    requires d <= n
    ensures |js| == n - d && forall j: nat :: j in js <==> d < j <= n
  {
    if d == n then {} else Depths(d, n - 1) + {n}
  }

  lemma CowAt(s: State, r: nat, q: seq<nat>, frames: seq<nat>, j: nat)
    requires FaultPath(s, r, q, frames) && j < LEVELS
    ensures |frames| == LEVELS + 1 && |q| == LEVELS && IsTable(s.mem, frames[j]) && q[j] < ENTRIES
    ensures j + 1 in CowEntries(s, r, q) <==> PathEntry(s, q, frames, j).cow
  {
    PathFrames(s, r, q, frames, j + 1);
  }

  /** An entry at depth d is copy-on-write: so are those below it. If the one above is not,
      there are no others. */
  lemma CowCount(s: State, r: nat, q: seq<nat>, frames: seq<nat>, d: nat)
    requires CowDown(s) && FaultPath(s, r, q, frames) && d < LEVELS && PathEntry(s, q, frames, d).cow
    ensures LEVELS - d <= |CowEntries(s, r, q)|
    ensures d == 0 || !PathEntry(s, q, frames, d - 1).cow ==> |CowEntries(s, r, q)| == LEVELS - d
  {
    var deep, lowest := Depths(d, LEVELS), d == 0 || !PathEntry(s, q, frames, d - 1).cow;
    hide CowDown, FaultPath, PathEntry;
    assert forall j :: j in CowEntries(s, r, q) ==> 1 <= j <= |q|;
    forall j: nat | 1 <= j <= LEVELS
      ensures d < j ==> j in CowEntries(s, r, q)
      ensures j <= d && lowest ==> j !in CowEntries(s, r, q)
    {
      CowAt(s, r, q, frames, j - 1);
      if d < j { CowSuffix(s, r, q, frames, d, j - 1); } else { CowSuffix(s, r, q, frames, j - 1, d - 1); }
    }
    hide CowEntries;
    SubsetSize(deep, CowEntries(s, r, q));
    if lowest { assert CowEntries(s, r, q) == deep; }
  }

  /** A block that fails, when m frames have been taken. */
  lemma TooFew(s: State, r: nat, q: seq<nat>, frames: seq<nat>, m: nat, mapped: seq<bool>)
    requires CowDown(s) && FaultPath(s, r, q, frames) && m < LEVELS == |mapped|
    requires PathEntry(s, q, frames, LEVELS - 1 - m).cow && !(mapped[m] && m < |FreeFrames(s)|)
    ensures !EnoughFor(s, r, q, mapped)
  {
    CowCount(s, r, q, frames, LEVELS - 1 - m);
  }

  lemma OneMore(s: State, m: nat, mapped: seq<bool>)
    requires Enough(s, m, mapped) && m < |mapped| && mapped[m] && m < |FreeFrames(s)|
    ensures Enough(s, m + 1, mapped)
  {}

  lemma CopiedPath(s0: State, s: State, r: nat, q: seq<nat>, frames: seq<nat>, d: nat, copies: seq<nat>)
    requires Copied(s0, s, r, q, frames, d, copies)
    ensures FaultPath(s0, r, q, frames)
  {}

  lemma FinalCount(s0: State, s: State, r: nat, q: seq<nat>, frames: seq<nat>, d: nat, copies: seq<nat>)
    requires Inv(s0) && d < LEVELS && Copied(s0, s, r, q, frames, d + 1, copies)
    requires PathEntry(s0, q, frames, d).cow && (d > 0 ==> !PathEntry(s0, q, frames, d - 1).cow)
    ensures |CowEntries(s0, r, q)| == LEVELS - d
  {
    CowCount(s0, r, q, frames, d);
  }

  /** The page itself is copy-on-write. */
  ghost predicate LeafIsCow(s: State, r: nat, q: seq<nat>)
    requires q != []
  {
    Ent(s.mem, r, q).Some? && Ent(s.mem, r, q).value.cow
  }

  lemma PathIsRepair(s: State, r: nat, q: seq<nat>, frames: seq<nat>, k: nat, copies: seq<nat>)
    requires CowDown(s) && FaultPath(s, r, q, frames) && k < LEVELS && |copies| == LEVELS + 1
    requires PathEntry(s, q, frames, k).cow && (k > 0 ==> !PathEntry(s, q, frames, k - 1).cow)
    ensures OnPath(s, Repair(r, q, frames, k, copies))
  {
    forall j | 0 <= j < LEVELS ensures s.mem[frames[j]].es[q[j]].cow <==> k <= j {
      assert PathEntry(s, q, frames, j) == s.mem[frames[j]].es[q[j]];
      if k <= j { CowSuffix(s, r, q, frames, k, j); } else { CowSuffix(s, r, q, frames, j, k - 1); }
    }
  }

  // ----------------------------------------------------- releasing in order

  lemma DropCons(s: State, f: nat, fs: seq<nat>)
    requires f < |s.refs| && AllBelow(fs, |s.refs|)
    ensures AllBelow([f] + fs, |s.refs|) && DropAll(s, [f] + fs) == DropAll(DropFrame(s, f), fs)
  {
    assert ([f] + fs)[1..] == fs;
  }

  function DropIf(s: State, f: nat): (s': State)
    requires f < |s.refs|
    ensures |s'.refs| == |s.refs|
  {
    if f != 0 then DropFrame(s, f) else s
  }

  lemma DropNext(s: State, f: nat, fs: seq<nat>)
    requires f < |s.refs| && AllBelow(fs, |s.refs|)
    ensures AllBelow(NonZero(f) + fs, |s.refs|)
    ensures DropAll(s, NonZero(f) + fs) == DropAll(DropIf(s, f), fs)
  {
    if f != 0 { DropCons(s, f, fs); } else { assert NonZero(f) + fs == fs; }
  }

  lemma DropFour(s: State, d: nat, c: nat, b: nat, a: nat)
    requires a < |s.refs| && b < |s.refs| && c < |s.refs| && d < |s.refs|
    ensures AllBelow(NonZero(d) + NonZero(c) + NonZero(b) + NonZero(a), |s.refs|)
    ensures DropAll(s, NonZero(d) + NonZero(c) + NonZero(b) + NonZero(a))
      == DropIf(DropIf(DropIf(DropIf(s, d), c), b), a)
  {
    hide DropAll;
    var s3 := DropIf(s, d);
    var s2 := DropIf(s3, c);
    var s1 := DropIf(s2, b);
    assert NonZero(d) + NonZero(c) + NonZero(b) + NonZero(a)
      == NonZero(d) + (NonZero(c) + (NonZero(b) + (NonZero(a) + [])));
    DropNext(s1, a, []);
    DropNext(s2, b, NonZero(a) + []);
    DropNext(s3, c, NonZero(b) + (NonZero(a) + []));
    DropNext(s, d, NonZero(c) + (NonZero(b) + (NonZero(a) + [])));
    DropNone(DropIf(s1, a));
  }

  lemma DropNone(s: State)
    ensures DropAll(s, []) == s
  {}

  function NonZero(f: nat): seq<nat> { if f != 0 then [f] else [] }

  /** Path q leads from t at depth j to f at depth j + 1. */
  ghost predicate OneStep(s: State, r: nat, q: seq<nat>, t: nat, j: nat, f: nat) {
    && j < LEVELS && |q| == LEVELS && q[j] < ENTRIES
    && Lookup(s.mem, t, q[j]).Some? && Lookup(s.mem, t, q[j]).value.frame == f && t in s.used
    && Walk(s.mem, r, q[..j + 1]) == Some(f) && f in s.used
    && (if j + 1 < LEVELS then IsTable(s.mem, f) else IsData(s.mem, f))
  }

  /** One successful check extends the path. */
  lemma NextOnPath(s: State, r: nat, q: seq<nat>, t: nat, j: nat)
    requires Typed(s) && RootsOk(s) && r in s.roots && PagePath(q) && j < LEVELS && Walk(s.mem, r, q[..j]) == Some(t)
    requires Lookup(s.mem, t, q[j]).Some?
    ensures OneStep(s, r, q, t, j, Lookup(s.mem, t, q[j]).value.frame)
  {
    AlongPath(s, r, q, t, j);
    assert Reaches(s, r, q[..j], t);
    assert Reaches(s, r, q[..j + 1], Lookup(s.mem, t, q[j]).value.frame);
  }

  /** An entry at the top that grants user access is in the lower half. */
  lemma UserIsLow(s: State, r: nat, q: seq<nat>)
    requires Inv(s) && r in s.roots && |q| == LEVELS
    requires PagePath(q) || (Ent(s.mem, r, q[..1]).Some? && Ent(s.mem, r, q[..1]).value.user)
    ensures PagePath(q)
  {
    if q[0] >= USER_ENTRIES { UpperHalfDenied(s, r, q); }
  }

  /** The path of a page of either half. */
  predicate InHalf(q: seq<nat>) {
    PagePath(q) || (KernelPath(q) && |q| == LEVELS)
  }

  lemma OutsideTables(q: seq<nat>)
    requires |q| == LEVELS && q[0] < ENTRIES && q[0] != RECURSIVE_ENTRY
    ensures InHalf(q)
  {}

  /** Path q, of either half, leads from t at depth j to f. */
  ghost predicate Moved(s: State, r: nat, q: seq<nat>, t: nat, j: nat, f: nat) {
    && j < LEVELS && |q| == LEVELS && InHalf(q)
    && Ent(s.mem, r, q[..j + 1]) == Lookup(s.mem, t, q[j]) && Walk(s.mem, r, q[..j + 1]) == Some(f)
    && (j + 1 < LEVELS ==> IsTable(s.mem, f))
    && (PagePath(q) ==> OneStep(s, r, q, t, j, f))
  }

  lemma MovedParts(s: State, r: nat, q: seq<nat>, t: nat, j: nat, f: nat)
    requires Moved(s, r, q, t, j, f)
    ensures Walk(s.mem, r, q[..j + 1]) == Some(f) && (j + 1 < LEVELS ==> IsTable(s.mem, f))
    ensures InHalf(q)
    ensures PagePath(q) ==> OneStep(s, r, q, t, j, f)
  {}

  /** What the checks of a whole path give the handler: the tables, and the last entry. */
  ghost predicate LeafFound(s: State, r: nat, q: seq<nat>, frames: seq<nat>) {
    && |frames| == LEVELS + 1 && |q| == LEVELS && q[3] < ENTRIES && IsTable(s.mem, frames[3])
    && Ent(s.mem, r, q) == Some(s.mem[frames[3]].es[q[3]])
    && if PagePath(q) then FaultPath(s, r, q, frames) else KernelPath(q)
  }

  lemma LeafIsFound(s: State, r: nat, q: seq<nat>, frames: seq<nat>)
    requires r in s.roots && |q| == LEVELS && q[3] < ENTRIES && |frames| == LEVELS + 1 && frames[0] == r
    requires Moved(s, r, q, frames[0], 0, frames[1]) && Moved(s, r, q, frames[1], 1, frames[2])
    requires Moved(s, r, q, frames[2], 2, frames[3]) && Moved(s, r, q, frames[3], 3, frames[4])
    ensures LeafFound(s, r, q, frames)
  {
    hide OneStep, FaultPath;
    assert q[..4] == q;
    if PagePath(q) { StepsMakePath(s, r, q, frames); }
  }

  lemma LeafParts(s: State, r: nat, q: seq<nat>, frames: seq<nat>)
    requires LeafFound(s, r, q, frames)
    ensures |frames| == LEVELS + 1 && |q| == LEVELS && q[3] < ENTRIES && IsTable(s.mem, frames[3])
    ensures Ent(s.mem, r, q) == Some(s.mem[frames[3]].es[q[3]])
    ensures if PagePath(q) then FaultPath(s, r, q, frames) else KernelPath(q)
  {}

  lemma TopStep(s: State, r: nat, q: seq<nat>)
    requires Inv(s) && r in s.roots
    ensures Walk(s.mem, r, q[..0]) == Some(r) && IsTable(s.mem, r)
  {
    assert q[..0] == [];
  }

  lemma StepsMakePath(s: State, r: nat, q: seq<nat>, frames: seq<nat>)
    requires r in s.roots && PagePath(q) && |frames| == LEVELS + 1 && frames[0] == r
    requires OneStep(s, r, q, frames[0], 0, frames[1]) && OneStep(s, r, q, frames[1], 1, frames[2])
    requires OneStep(s, r, q, frames[2], 2, frames[3]) && OneStep(s, r, q, frames[3], 3, frames[4])
    ensures FaultPath(s, r, q, frames)
  {
    forall j | 0 <= j < LEVELS ensures OneStep(s, r, q, frames[j], j, frames[j + 1]) {
      assert j == 0 || j == 1 || j == 2 || j == 3;
    }
  }

  /** What the error code of a fault says about the access. */
  datatype Access = Access(user: bool, write: bool, fetch: bool)

  const USER_WRITE: Access := Access(true, true, false)

  /** The handler's checks on one entry. */
  predicate Admits(a: Access, e: Option<Entry>) {
    e.Some? && (a.user ==> e.value.user) && !(a.fetch && e.value.noExecute)
    && (e.value.cow || !a.write || e.value.writable)
  }

  ghost predicate AllAdmit(a: Access, s: State, r: nat, q: seq<nat>) {
    forall j :: 1 <= j <= |q| ==> Admits(a, Ent(s.mem, r, q[..j]))
  }

  lemma UserWriteChecks(s: State, r: nat, q: seq<nat>)
    ensures AllAdmit(USER_WRITE, s, r, q) <==> ChecksPass(s, r, q)
  {
    assert forall e :: Admits(USER_WRITE, e) == CheckPasses(e);
  }

  lemma FailedCheck(a: Access, s: State, r: nat, q: seq<nat>, j: nat)
    requires 1 <= j <= |q| && !Admits(a, Ent(s.mem, r, q[..j]))
    ensures !AllAdmit(a, s, r, q)
  {}

  lemma AllChecked(a: Access, s: State, r: nat, q: seq<nat>)
    requires |q| == LEVELS
    requires Admits(a, Ent(s.mem, r, q[..1])) && Admits(a, Ent(s.mem, r, q[..2]))
    requires Admits(a, Ent(s.mem, r, q[..3])) && Admits(a, Ent(s.mem, r, q[..4]))
    ensures AllAdmit(a, s, r, q)
  {
    forall j | 1 <= j <= |q| ensures Admits(a, Ent(s.mem, r, q[..j])) {
      assert j == 1 || j == 2 || j == 3 || j == 4;
    }
  }

  /** The frame at depth j if it is replaced, else 0. */
  function IfReplaced(frames: seq<nat>, k: nat, j: nat): nat
    requires |frames| == LEVELS + 1 && j <= LEVELS
  {
    if k < j then frames[j] else 0
  }

  lemma DropTail(s: State, frames: seq<nat>, k: nat)
    requires |frames| == LEVELS + 1 && k < LEVELS && (forall j :: k < j <= LEVELS ==> 0 < frames[j] < |s.refs|)
      && 0 < |s.refs|
    ensures AllBelow(frames[k + 1..], |s.refs|)
    ensures var d, c, b, a := IfReplaced(frames, k, 1), IfReplaced(frames, k, 2), IfReplaced(frames, k, 3), frames[4];
      a < |s.refs| && b < |s.refs| && c < |s.refs| && d < |s.refs|
      && DropAll(s, frames[k + 1..]) == DropIf(DropIf(DropIf(DropIf(s, d), c), b), a)
  {
    hide DropAll, DropIf;
    var d, c, b, a := IfReplaced(frames, k, 1), IfReplaced(frames, k, 2), IfReplaced(frames, k, 3), frames[4];
    assert frames[k + 1..] == NonZero(d) + NonZero(c) + NonZero(b) + NonZero(a);
    DropFour(s, d, c, b, a);
  }

  /** The replaced frames are real, allocated user frames. */
  lemma ReplacedFrames(s: State, c: Repair)
    requires Inv(s) && OnPath(s, c)
    ensures |c.frames| == LEVELS + 1 && c.Shaped()
    ensures forall j :: c.k < j <= LEVELS ==> 0 < c.frames[j] < |s.mem|
    ensures c.frames[c.k] in s.used && IsTable(s.mem, c.frames[c.k]) && c.q[c.k] < ENTRIES
  {
    ShapedOnPath(s, c);
    forall j | 0 <= j <= LEVELS ensures c.frames[j] in s.used && (c.k < j ==> 0 < c.frames[j] < |s.mem|) {
      FramesOnPath(s, c, j);
      assert Reaches(s, c.root, c.q[..j], c.frames[j]);
      assert j > 0 ==> c.q[..j] != [];
    }
  }

  lemma KeptTable(s0: State, s: State, r: nat, q: seq<nat>, frames: seq<nat>, k: nat, copies: seq<nat>)
    requires k < LEVELS && Copied(s0, s, r, q, frames, k + 1, copies)
    ensures |frames| == |copies| == LEVELS + 1 && |s.mem| == |s0.mem| && s.mem[frames[k]] == s0.mem[frames[k]]
    ensures IsTable(s.mem, frames[k]) && |s.refs| == |s.mem|
  {}

  /** A path that passes the checks and has a private leaf can be written as it is. */
  lemma NothingToRepair(s: State, r: nat, q: seq<nat>, frames: seq<nat>)
    requires Inv(s) && r in s.roots && LeafFound(s, r, q, frames) && ChecksPass(s, r, q)
    requires !s.mem[frames[3]].es[q[3]].cow
    ensures HardwareAllows(s, r, q)
  {
    assert CheckPasses(Ent(s.mem, r, q[..1]));
    UserIsLow(s, r, q);
    forall j | 1 <= j <= LEVELS
      ensures Ent(s.mem, r, q[..j]).Some? && Ent(s.mem, r, q[..j]).value.user && Ent(s.mem, r, q[..j]).value.writable
    {
      assert CheckPasses(Ent(s.mem, r, q[..j]));
      PathFrames(s, r, q, frames, j);
      CowSuffix(s, r, q, frames, j - 1, 3);
      assert PathEntry(s, q, frames, j - 1) == Ent(s.mem, r, q[..j]).value;
    }
  }

  /** Making copies leaves the tables of the path alone. */
  lemma TablesKept(s0: State, s: State, r: nat, q: seq<nat>, frames: seq<nat>, d: nat, copies: seq<nat>)
    requires Copied(s0, s, r, q, frames, d, copies)
    ensures |frames| == |copies| == LEVELS + 1 && |q| == LEVELS && FaultPath(s0, r, q, frames)
    ensures forall j :: 0 <= j < LEVELS ==>
      IsTable(s.mem, frames[j]) && IsTable(s0.mem, frames[j]) && q[j] < ENTRIES && s.mem[frames[j]] == s0.mem[frames[j]]
    ensures forall j :: d <= j <= LEVELS ==> copies[j] < |s.mem|
  {}

  lemma RepairReady(s: State, r: nat, q: seq<nat>, frames: seq<nat>, k: nat, copies: seq<nat>)
    requires Inv(s) && FaultPath(s, r, q, frames) && k < LEVELS && |copies| == LEVELS + 1
    requires s.mem[frames[k]].es[q[k]].cow && (k > 0 ==> !s.mem[frames[k - 1]].es[q[k - 1]].cow)
    ensures OnPath(s, Repair(r, q, frames, k, copies))
  {
    PathIsRepair(s, r, q, frames, k, copies);
  }

  /** The depths from d down have copies, those above have none yet. */
  ghost predicate CopiesFrom(copies: seq<nat>, d: nat) {
    && |copies| == LEVELS + 1
    && forall j :: 0 < j <= LEVELS ==> (copies[j] != 0 <==> d <= j)
  }

  lemma CopiesSize(copies: seq<nat>, d: nat)
    requires CopiesFrom(copies, d)
    ensures |copies| == LEVELS + 1
  {}

  lemma LeafAlone(copy: nat)
    ensures CopiesFrom([0, 0, 0, 0, 0], LEVELS + 1) && [0, 0, 0, 0, copy] == [0, 0, 0, 0, 0][LEVELS := copy]
    ensures NonZero(copy) + [0, 0, 0, 0, 0][LEVELS + 1..] == NonZero(copy)
    ensures copy != 0 ==> CopiesFrom([0, 0, 0, 0, copy], LEVELS)
  {}

  lemma NextCopies(copies: seq<nat>, d: nat, copy: nat)
    requires CopiesFrom(copies, d + 1) && 0 < d <= LEVELS && copy != 0
    ensures |copies| == LEVELS + 1 && CopiesFrom(copies[d := copy], d)
  {}

  /** The frames taken so far, in the order in which the clean-up gives them back. */
  lemma AllocatedSoFar(s0: State, s: State, d: nat, copies0: seq<nat>, copies: seq<nat>)
    requires 0 < d <= LEVELS && CopiesFrom(copies0, d + 1) && |copies| == |copies0| && copies == copies0[d := copies[d]]
    requires Scratch(s0, s, NonZero(copies[d]) + copies0[d + 1..])
    ensures Scratch(s0, s, NonZero(copies[1]) + NonZero(copies[2]) + NonZero(copies[3]) + NonZero(copies[4]))
    ensures forall j :: 0 < j <= LEVELS ==> copies[j] < |s.mem| || copies[j] == 0
    ensures |s.mem| == |s0.mem|
  {
    var fs := NonZero(copies[d]) + copies0[d + 1..];
    AsFour(d, copies0, copies);
    forall j | 0 < j <= LEVELS && copies[j] != 0 ensures copies[j] in fs {
      if j > d { assert copies0[d + 1..][j - d - 1] == copies[j]; }
    }
  }

  lemma AsFour(d: nat, copies0: seq<nat>, copies: seq<nat>)
    requires 0 < d <= LEVELS && CopiesFrom(copies0, d + 1) && |copies| == |copies0| && copies == copies0[d := copies[d]]
    ensures NonZero(copies[d]) + copies0[d + 1..]
      == NonZero(copies[1]) + NonZero(copies[2]) + NonZero(copies[3]) + NonZero(copies[4])
  {
    var rest := copies0[d + 1..];
    if d == 4 {
      assert rest == [];
    } else if d == 3 {
      assert rest == [copies[4]];
    } else if d == 2 {
      assert rest == [copies[3]] + [copies[4]];
    } else {
      assert rest == [copies[2]] + [copies[3]] + [copies[4]];
    }
  }

  /** An entry on the way, unchanged by the copying. */
  lemma EntryKept(s0: State, s: State, r: nat, q: seq<nat>, frames: seq<nat>, j: nat, d: nat, copies: seq<nat>)
    requires Copied(s0, s, r, q, frames, d, copies) && j < LEVELS
    ensures |frames| == LEVELS + 1 && |q| == LEVELS && IsTable(s0.mem, frames[j]) && IsTable(s.mem, frames[j])
    ensures q[j] < ENTRIES && PathEntry(s0, q, frames, j) == s.mem[frames[j]].es[q[j]]
  {
    TablesKept(s0, s, r, q, frames, d, copies);
  }
}
