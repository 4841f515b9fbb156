/**
 One pass of `markAsCoW` over a table, told on memory values: what has been done
 after the first n entries, and how one more entry extends it.
 */
module MarkPass {
  import opened PageTables
  import opened AddressSpaces
  import opened Traversal
  import opened CowExit
  import opened CowFork

  function MarkFrame(fr: Frame): Frame {
    if fr.Table? then Table(Marked(fr.es, ENTRIES)) else fr
  }

  /** mem' is mem with the first n entries of t marked, and every table below
      them marked whole. */
  ghost predicate MarkedBelow(mem: seq<Frame>, mem': seq<Frame>, level: nat, t: nat, n: nat) {
    && level > 0 && IsTable(mem, t) && |mem'| == |mem|
    && forall f :: 0 <= f < |mem| ==>
         mem'[f] == if f == t then Table(Marked(mem[t].es, n))
                    else if f in Met(mem, level - 1, t, n) then MarkFrame(mem[f])
                    else mem[f]
  }

  /** Every frame in d has gained one reference. */
  ghost predicate Bumped(refs: seq<nat>, refs': seq<nat>, d: set<nat>) {
    |refs'| == |refs| && forall f :: 0 <= f < |refs| ==> refs'[f] == if f in d then refs[f] + 1 else refs[f]
  }

  lemma NothingMarked(mem: seq<Frame>, level: nat, t: nat)
    requires level > 0 && IsTable(mem, t)
    ensures MarkedBelow(mem, mem, level, t, 0)
  {
    assert Marked(mem[t].es, 0) == mem[t].es;
  }

  lemma MarkedLinks(mem: seq<Frame>, mem': seq<Frame>, level: nat, t: nat, n: nat)
    requires MarkedBelow(mem, mem', level, t, n)
    ensures SameLinks(mem, mem')
    ensures forall f :: IsTable(mem, f) <==> IsTable(mem', f)
  {
    forall u: nat, i: nat ensures SameLink(Lookup(mem, u, i), Lookup(mem', u, i)) {
      if u < |mem| { assert mem'[u].Table? <==> mem[u].Table?; }
    }
  }

  lemma TreeShrinks(mem: seq<Frame>, level: nat, t: nat, n: nat)
    requires Tree(mem, level, t, n) && level > 0
    ensures Tree(mem, level - 1, t, n)
  {
    forall p | InRange(p, level - 1, n) ensures InRange(p, level, n) {}
  }

  /** An entry that is not present changes nothing. */
  lemma MarkSkips(mem: seq<Frame>, mem': seq<Frame>, level: nat, t: nat, i: nat)
    requires MarkedBelow(mem, mem', level, t, i) && i < ENTRIES && Lookup(mem, t, i).None?
    ensures MarkedBelow(mem, mem', level, t, i + 1)
  {
    assert Marked(mem[t].es, i + 1) == Marked(mem[t].es, i);
  }

  /** Marking one present entry and then the whole subtree under it. */
  lemma MarkAdvances(mem: seq<Frame>, m1: seq<Frame>, m2: seq<Frame>, m3: seq<Frame>, level: nat, t: nat, n: nat,
      i: nat)
    requires Tree(mem, level, t, n) && i < n <= ENTRIES && MarkedBelow(mem, m1, level, t, i)
    requires Lookup(mem, t, i).Some?
    requires m2 == m1[t := Table(m1[t].es[i := m1[t].es[i].Mark()])]
    requires var c := Lookup(mem, t, i).value.frame;
      if level == 1 then m3 == m2 else MarkedBelow(m2, m3, level - 1, c, ENTRIES)
    ensures MarkedBelow(mem, m3, level, t, i + 1)
  {
    var c := Lookup(mem, t, i).value.frame;
    assert Marked(mem[t].es, i + 1) == Marked(mem[t].es, i)[i := mem[t].es[i].Mark()];
    if level > 1 {
      TreeShrinks(mem, level, t, n);
      Disjoint(mem, level - 1, t, n, i);
      MarkedEntryLinks(mem, m1, m2, level, t, i);
      SameMet(mem, m2, level - 2, c, ENTRIES);
      forall f | 0 <= f < |mem|
        ensures m3[f] == if f == t then Table(Marked(mem[t].es, i + 1))
                         else if f in Met(mem, level - 1, t, i + 1) then MarkFrame(mem[f]) else mem[f]
      {
        MarkedAt(mem, m1, m2, m3, level, t, i, c, f);
      }
    }
  }

  lemma MarkedAt(mem: seq<Frame>, m1: seq<Frame>, m2: seq<Frame>, m3: seq<Frame>, level: nat, t: nat, i: nat, c: nat,
      f: nat)
    requires level > 1 && i < ENTRIES && f < |mem|
    requires MarkedBelow(mem, m1, level, t, i) && Lookup(mem, t, i).Some? && Lookup(mem, t, i).value.frame == c
    requires m2 == m1[t := Table(m1[t].es[i := m1[t].es[i].Mark()])]
    requires MarkedBelow(m2, m3, level - 1, c, ENTRIES)
      && Met(m2, level - 2, c, ENTRIES) == Met(mem, level - 2, c, ENTRIES)
    requires t != c && c !in Met(mem, level - 1, t, i) && t !in Met(mem, level - 2, c, ENTRIES)
    requires Met(mem, level - 2, c, ENTRIES) !! Met(mem, level - 1, t, i) && c !in Met(mem, level - 2, c, ENTRIES)
    requires t !in Met(mem, level - 1, t, i)
    requires Marked(mem[t].es, i + 1) == Marked(mem[t].es, i)[i := mem[t].es[i].Mark()]
    ensures m3[f] == if f == t then Table(Marked(mem[t].es, i + 1))
                     else if f in Met(mem, level - 1, t, i + 1) then MarkFrame(mem[f]) else mem[f]
  {
    assert Met(mem, level - 1, t, i + 1) == Met(mem, level - 1, t, i) + {c} + Met(mem, level - 2, c, ENTRIES);
    if f == t {
      assert m3[f] == m2[f];
    } else {
      assert m2[f] == m1[f];
    }
  }

  lemma MarkedEntryLinks(mem: seq<Frame>, m1: seq<Frame>, m2: seq<Frame>, level: nat, t: nat, i: nat)
    requires MarkedBelow(mem, m1, level, t, i) && i < ENTRIES
    requires m2 == m1[t := Table(m1[t].es[i := m1[t].es[i].Mark()])]
    ensures SameLinks(mem, m2)
    ensures forall f :: IsTable(mem, f) <==> IsTable(m2, f)
  {
    MarkedLinks(mem, m1, level, t, i);
    forall u: nat, j: nat ensures SameLink(Lookup(mem, u, j), Lookup(m2, u, j)) {
      assert SameLink(Lookup(mem, u, j), Lookup(m1, u, j));
    }
  }

  /** The frames counted so far plus the new subtree. */
  lemma BumpAdvances(mem: seq<Frame>, level: nat, t: nat, n: nat, i: nat, r0: seq<nat>, r1: seq<nat>, r2: seq<nat>,
      r3: seq<nat>)
    requires Tree(mem, level, t, n) && level > 0 && i < n <= ENTRIES && Lookup(mem, t, i).Some?
    requires Bumped(r0, r1, Met(mem, level, t, i))
    requires Lookup(mem, t, i).value.frame < |r1|
      && r2 == r1[Lookup(mem, t, i).value.frame := r1[Lookup(mem, t, i).value.frame] + 1]
    requires Bumped(r2, r3, Met(mem, level - 1, Lookup(mem, t, i).value.frame, ENTRIES))
    ensures Bumped(r0, r3, Met(mem, level, t, i + 1))
  {
    Disjoint(mem, level, t, n, i);
  }

  // ------------------------------------------------- the exit pass, likewise

  /** Every frame in d has lost one reference and those at one are free. */
  ghost predicate Dropped(refs: seq<nat>, used: set<nat>, refs': seq<nat>, used': set<nat>, d: set<nat>) {
    && |refs'| == |refs|
    && (forall f :: f in d ==> f < |refs| && refs[f] > 0)
    && (forall f :: 0 <= f < |refs| ==> refs'[f] == if f in d then refs[f] - 1 else refs[f])
    && (forall f :: f in used' <==> f in used && !(f in d && refs[f] == 1))
  }

  /** Every frame in d is allocated and counted. */
  ghost predicate AllHeld(refs: seq<nat>, used: set<nat>, d: set<nat>) {
    forall f :: f in d ==> 0 < f < |refs| && f in used && refs[f] > 0
  }

  lemma DropAdvances(mem: seq<Frame>, level: nat, t: nat, n: nat, i: nat,
      r0: seq<nat>, u0: set<nat>, r1: seq<nat>, u1: set<nat>, r2: seq<nat>, u2: set<nat>, r3: seq<nat>, u3: set<nat>)
    requires Tree(mem, level, t, n) && level > 0 && i < n <= ENTRIES && Lookup(mem, t, i).Some?
    requires Dropped(r0, u0, r1, u1, Met(mem, level, t, i))
    requires Dropped(r1, u1, r2, u2, Met(mem, level - 1, Lookup(mem, t, i).value.frame, ENTRIES))
    requires Dropped(r2, u2, r3, u3, {Lookup(mem, t, i).value.frame})
    ensures Dropped(r0, u0, r3, u3, Met(mem, level, t, i + 1))
  {
    Disjoint(mem, level, t, n, i);
  }

  lemma {:induction false} MetGrows(mem: seq<Frame>, level: nat, t: nat, i: nat, n: nat)
    requires i < n && Lookup(mem, t, i).Some? && level > 0
    ensures var c := Lookup(mem, t, i).value.frame;
      c in Met(mem, level, t, n) && Met(mem, level - 1, c, ENTRIES) <= Met(mem, level, t, n)
    decreases n
  {
    if i < n - 1 { MetGrows(mem, level, t, i, n - 1); }
  }

  /** After marking entry i, the subtree under it is as it was and may be marked in turn. */
  lemma ChildIsReady(mem: seq<Frame>, m1: seq<Frame>, m2: seq<Frame>, level: nat, t: nat, n: nat, i: nat)
    requires level > 0 && Tree(mem, level, t, n) && i < n <= ENTRIES && MarkedBelow(mem, m1, level, t, i)
    requires IsTable(m1, t) && Lookup(mem, t, i).Some?
    requires m2 == m1[t := Table(m1[t].es[i := m1[t].es[i].Mark()])]
    ensures var c := Lookup(mem, t, i).value.frame;
      && Tree(m2, level - 1, c, ENTRIES) && (level > 1 ==> IsTable(m2, c))
      && Met(m2, level - 1, c, ENTRIES) == Met(mem, level - 1, c, ENTRIES)
      && Met(mem, level - 1, c, ENTRIES) <= Met(mem, level, t, n) && c in Met(mem, level, t, n)
      && c !in Met(mem, level, t, i) && c !in Met(mem, level - 1, c, ENTRIES)
      && Met(mem, level - 1, c, ENTRIES) !! Met(mem, level, t, i)
  {
    hide Met, Tree, MarkedBelow, SameLinks;
    var c := Lookup(mem, t, i).value.frame;
    MetGrows(mem, level, t, i, n);
    Disjoint(mem, level, t, n, i);
    MarkedEntryLinks(mem, m1, m2, level, t, i);
    SubTree(mem, level, t, n, i);
    SameTree(mem, m2, level - 1, c, ENTRIES);
    SameMet(mem, m2, level - 1, c, ENTRIES);
    if level > 1 { TopIsTable(m2, level - 1, c); }
  }

  lemma TopIsTable(mem: seq<Frame>, level: nat, t: nat)
    requires Tree(mem, level, t, ENTRIES) && level > 0
    ensures IsTable(mem, t)
  {
    assert InRange([], level, ENTRIES) && Walk(mem, t, []) == Some(t);
  }

  /** The entries not reached yet are as they were. */
  lemma NextEntry(mem: seq<Frame>, m1: seq<Frame>, level: nat, t: nat, i: nat)
    requires MarkedBelow(mem, m1, level, t, i) && i < ENTRIES
    ensures IsTable(mem, t) && IsTable(m1, t) && m1[t].es[i] == mem[t].es[i]
  {}

  lemma BumpSkips(mem: seq<Frame>, level: nat, t: nat, i: nat)
    requires Lookup(mem, t, i).None?
    ensures Met(mem, level, t, i + 1) == Met(mem, level, t, i)
  {}

  /** Frames not counted yet still have their first count. */
  lemma CountsBelowLimit(mem: seq<Frame>, level: nat, t: nat, n: nat, i: nat, r0: seq<nat>, r1: seq<nat>)
    requires Tree(mem, level, t, n) && level > 0 && i < n <= ENTRIES && Lookup(mem, t, i).Some?
    requires Bumped(r0, r1, Met(mem, level, t, i))
    requires forall f :: f in Met(mem, level, t, n) ==> f < |r0|
    ensures var c := Lookup(mem, t, i).value.frame;
      && c < |r1| && r1[c] == r0[c]
      && forall f :: f in Met(mem, level - 1, c, ENTRIES) ==> f < |r1| && r1[f] == r0[f]
  {
    MetGrows(mem, level, t, i, n);
    Disjoint(mem, level, t, n, i);
  }

  lemma NothingDropped(refs: seq<nat>, used: set<nat>, mem: seq<Frame>, level: nat, t: nat)
    ensures Dropped(refs, used, refs, used, Met(mem, level, t, 0))
    ensures Bumped(refs, refs, Met(mem, level, t, 0))
  {}

  /** The subtree under entry i when the exit pass gets there. */
  lemma ChildIsDisposable(mem: seq<Frame>, level: nat, t: nat, n: nat, i: nat, r0: seq<nat>, u0: set<nat>,
      r1: seq<nat>, u1: set<nat>)
    requires Tree(mem, level, t, n) && level > 0 && i < n <= ENTRIES && Lookup(mem, t, i).Some?
    requires Dropped(r0, u0, r1, u1, Met(mem, level, t, i))
    requires AllHeld(r0, u0, Met(mem, level, t, n))
    ensures var c := Lookup(mem, t, i).value.frame;
      && Tree(mem, level - 1, c, ENTRIES) && (level > 1 ==> IsTable(mem, c))
      && c !in Met(mem, level - 1, c, ENTRIES) && t != c && t !in Met(mem, level - 1, c, ENTRIES)
      && 0 < c < |r1| && c in u1 && r1[c] > 0
      && AllHeld(r1, u1, Met(mem, level - 1, c, ENTRIES))
  {
    MetGrows(mem, level, t, i, n);
    Disjoint(mem, level, t, n, i);
    SubTree(mem, level, t, n, i);
    var c := Lookup(mem, t, i).value.frame;
    if level > 1 { TopIsTable(mem, level - 1, c); }
  }

  /** The subtree under entry i is untouched by clearing entries of t. */
  lemma ClearedTopKeepsChild(mem: seq<Frame>, level: nat, t: nat, n: nat, i: nat, top: Frame)
    requires Tree(mem, level, t, n) && level > 0 && i < n <= ENTRIES && Lookup(mem, t, i).Some? && t < |mem|
    ensures var c := Lookup(mem, t, i).value.frame; var mem' := mem[t := top];
      && Met(mem', level - 1, c, ENTRIES) == Met(mem, level - 1, c, ENTRIES)
      && Tree(mem', level - 1, c, ENTRIES) && (level > 1 ==> IsTable(mem', c))
  {
    var c := Lookup(mem, t, i).value.frame;
    hide Tree, Met, SameOn;
    Disjoint(mem, level, t, n, i);
    SubTree(mem, level, t, n, i);
    SameAfter(mem, level - 1, t, top, c);
    MetOn(mem, mem[t := top], level - 1, c, ENTRIES);
    TreeOn(mem, mem[t := top], level - 1, c);
    if level > 1 { TopIsTable(mem[t := top], level - 1, c); }
  }

  lemma SameAfter(mem: seq<Frame>, level: nat, t: nat, top: Frame, c: nat)
    requires t < |mem| && t != c && t !in Met(mem, level, c, ENTRIES)
    ensures var mem' := mem[t := top];
      && SameOn(mem, mem', level, c) && (c < |mem| ==> mem'[c] == mem[c])
      && forall f :: f in Met(mem, level, c, ENTRIES) && f < |mem| ==> mem'[f] == mem[f]
  {
    hide Met;
  }

  lemma DropOne(r: seq<nat>, u: set<nat>, f: nat)
    requires f < |r| && r[f] > 0
    ensures Dropped(r, u, r[f := r[f] - 1], if r[f] == 1 then u - {f} else u, {f})
  {}

  lemma ClearNext(es: seq<Entry>, i: nat)
    requires i < |es|
    ensures Cleared(es, i + 1) == if es[i].present then Cleared(es, i)[i := EMPTY] else Cleared(es, i)
    ensures Cleared(es, i)[i] == es[i]
    ensures Cleared(es, 0) == es
  {}

  // ------------------------------------------------- from a pass to a step

  /** The frames below a root can all gain a reference. */
  lemma RootIsMarkable(s: State, r: nat)
    requires Inv(s) && r in s.roots && |s.mem| + 1 < 0x1_0000_0000_0000_0000
    ensures Tree(s.mem, LEVELS, r, USER_ENTRIES) && IsTable(s.mem, r) && r in s.used && |s.refs| == |s.mem|
    ensures AllHeld(s.refs, s.used, Met(s.mem, LEVELS, r, USER_ENTRIES))
    ensures forall f :: f in Met(s.mem, LEVELS, r, USER_ENTRIES) ==>
      f < |s.refs| && s.refs[f] + 1 < 0x1_0000_0000_0000_0000
  {
    hide Inv, RootsOk, KernelHalf, Typed, Trees, CowDown, CowReadOnly, Tree, Met;
    InvParts(s);
    RootIsTree(s, r);
    RootIsUsed(s, r);
    forall f | f in Met(s.mem, LEVELS, r, USER_ENTRIES)
      ensures 0 < f < |s.refs| && f in s.used && 0 < s.refs[f] && s.refs[f] + 1 < 0x1_0000_0000_0000_0000
    {
      MetIsBelow(s, r, LEVELS, f);
      HeldOnce(s, r, f);
    }
  }

  lemma RootIsUsed(s: State, r: nat)
    requires RootsOk(s) && r in s.roots
    ensures IsTable(s.mem, r) && r in s.used && |s.refs| == |s.mem|
  {}

  lemma HeldOnce(s: State, r: nat, f: nat)
    requires Inv(s) && Below(s, r, LEVELS, f)
    ensures 0 < f < |s.refs| && f in s.used && 0 < s.refs[f] <= |s.mem|
  {
    InvParts(s);
    FlagParts(s);
    hide Inv, KernelHalf, CowDown, CowReadOnly, FlagsUp, Private, Below;
    BelowIsUser(s, r, LEVELS, f);
    CountsAreBounded(s, f);
  }

  lemma PassIsFork(s: State, m: seq<Frame>, s': State, parent: nat, child: nat)
    requires parent in s.roots && parent in s.used && child !in s.used && child < |s.mem| == |s.refs|
    requires MarkedBelow(s.mem, m, LEVELS, parent, USER_ENTRIES)
    requires IsTable(m, parent)
    requires var es := m[parent].es;
      s'.mem == m[child := Table(es[RECURSIVE_ENTRY := es[RECURSIVE_ENTRY].(frame := child)])]
    requires Bumped(s.refs[child := 1], s'.refs, Met(s.mem, LEVELS, parent, USER_ENTRIES))
    requires child !in Met(s.mem, LEVELS, parent, USER_ENTRIES)
    requires s'.roots == s.roots + {child} && s'.used == s.used + {child} && s'.reserved == s.reserved
    ensures ForkStep(s, s', parent, child)
  {
    hide Met, Below, Marked, RootsOk;
    PassIsMarking(s, m, parent, child);
    var es := s'.mem[parent].es;
    assert s'.mem[child] == Table(es[RECURSIVE_ENTRY := es[RECURSIVE_ENTRY].(frame := child)]);
    forall f: nat ensures f in Met(s.mem, LEVELS, parent, USER_ENTRIES) <==> Below(s, parent, LEVELS, f) {
      MetIsBelow(s, parent, LEVELS, f);
    }
    assert |s'.refs| == |s.refs|;
  }

  lemma PassIsMarking(s: State, m: seq<Frame>, parent: nat, child: nat)
    requires parent in s.roots && child < |s.mem| && parent != child
    requires MarkedBelow(s.mem, m, LEVELS, parent, USER_ENTRIES)
    ensures |m| == |s.mem| && IsTable(s.mem, parent) && IsTable(m, parent)
    ensures forall f :: 0 <= f < |m| && f != child ==>
          m[f] == if f == parent then Table(Marked(s.mem[f].es, USER_ENTRIES))
                     else if Below(s, parent, LEVELS - 1, f) && s.mem[f].Table? then Table(Marked(s.mem[f].es, ENTRIES))
                     else s.mem[f]
  {
    hide Met, Below, Marked;
    var tables := Met(s.mem, LEVELS - 1, parent, USER_ENTRIES);
    forall f: nat ensures f in tables <==> Below(s, parent, LEVELS - 1, f) {
      MetIsBelow(s, parent, LEVELS - 1, f);
    }
  }

  lemma PassIsExit(s: State, s': State, r: nat)
    requires r in s.roots && IsTable(s.mem, r)
    requires s'.mem == s.mem[r := Table(Cleared(s.mem[r].es, USER_ENTRIES))]
    requires Dropped(s.refs, s.used, s'.refs, s'.used, Met(s.mem, LEVELS, r, USER_ENTRIES))
    requires s'.roots == s.roots && s'.reserved == s.reserved
    ensures ExitStep(s, s', r)
  {
    forall f: nat ensures f in Met(s.mem, LEVELS, r, USER_ENTRIES) <==> Below(s, r, LEVELS, f) {
      MetIsBelow(s, r, LEVELS, f);
    }
  }

  lemma NoLevels(mem: seq<Frame>, t: nat, r: seq<nat>, u: set<nat>)
    ensures Dropped(r, u, r, u, Met(mem, 0, t, ENTRIES))
  {}

  /** A table being disposed of is still allocated while its entries are read. */
  lemma StillAllocated(mem: seq<Frame>, level: nat, t: nat, i: nat, r0: seq<nat>, u0: set<nat>, r1: seq<nat>,
      u1: set<nat>)
    requires Dropped(r0, u0, r1, u1, Met(mem, level, t, i)) && t in u0 && t !in Met(mem, level, t, ENTRIES)
      && i < ENTRIES
    ensures t in u1
  {
    MetMonotone(mem, level, t, i, ENTRIES);
  }

  lemma {:induction false} MetMonotone(mem: seq<Frame>, level: nat, t: nat, i: nat, n: nat)
    requires i <= n
    ensures Met(mem, level, t, i) <= Met(mem, level, t, n)
    decreases n
  {
    if i < n { MetMonotone(mem, level, t, i, n - 1); }
  }

  lemma ChildStillHeld(mem: seq<Frame>, level: nat, t: nat, i: nat, r1: seq<nat>, u1: set<nat>, r2: seq<nat>,
      u2: set<nat>)
    requires Lookup(mem, t, i).Some? && level > 0
    requires var c := Lookup(mem, t, i).value.frame;
      Dropped(r1, u1, r2, u2, Met(mem, level - 1, c, ENTRIES)) && c !in Met(mem, level - 1, c, ENTRIES) && c < |r1|
        && r1[c] > 0
    ensures var c := Lookup(mem, t, i).value.frame; c < |r2| && r2[c] == r1[c]
  {}

}
