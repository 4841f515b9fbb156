/**
 The frames a recursive walk of the page tables meets, and why it meets each of
 them once.
 */
module Traversal {
  import opened PageTables
  import opened AddressSpaces

  /** The frames met below the first n entries of table t, `level` levels deep. */
  ghost function Met(mem: seq<Frame>, level: nat, t: nat, n: nat): set<nat>
    decreases level, n
  {
    if level == 0 || n == 0 then {} else
      Met(mem, level, t, n - 1) +
      match Lookup(mem, t, n - 1)
      case None => {}
      case Some(e) => {e.frame} + Met(mem, level - 1, e.frame, ENTRIES)
  }

  ghost predicate MetBy(mem: seq<Frame>, level: nat, t: nat, n: nat, p: seq<nat>, f: nat) {
    p != [] && |p| <= level && p[0] < n && Walk(mem, t, p) == Some(f)
  }

  /** The walk through entry i first and then along p. */
  lemma WalkCons(mem: seq<Frame>, t: nat, i: nat, p: seq<nat>)
    ensures Walk(mem, t, [i] + p) == match Lookup(mem, t, i) case None => None case Some(e) => Walk(mem, e.frame, p)
  {
    WalkAppend(mem, t, [i], p);
    assert [] + [i] == [i];
    WalkSnoc(mem, t, [], i);
  }

  lemma {:induction false} MetHasPath(mem: seq<Frame>, level: nat, t: nat, n: nat, f: nat) returns (p: seq<nat>)
    requires f in Met(mem, level, t, n)
    ensures MetBy(mem, level, t, n, p, f)
    decreases level, n
  {
    if f in Met(mem, level, t, n - 1) {
      p := MetHasPath(mem, level, t, n - 1, f);
    } else {
      var e := Lookup(mem, t, n - 1).value;
      if f == e.frame {
        p := [n - 1];
        WalkCons(mem, t, n - 1, []);
        assert [n - 1] + [] == p;
      } else {
        var rest := MetHasPath(mem, level - 1, e.frame, ENTRIES, f);
        p := [n - 1] + rest;
        WalkCons(mem, t, n - 1, rest);
      }
    }
  }

  lemma {:induction false} PathIsMet(mem: seq<Frame>, level: nat, t: nat, n: nat, p: seq<nat>, f: nat)
    requires MetBy(mem, level, t, n, p, f)
    ensures f in Met(mem, level, t, n)
    decreases level, n
  {
    if p[0] < n - 1 {
      PathIsMet(mem, level, t, n - 1, p, f);
    } else {
      assert p == [n - 1] + p[1..];
      WalkCons(mem, t, n - 1, p[1..]);
      var e := Lookup(mem, t, n - 1).value;
      if |p| > 1 {
        WalkPrefix(mem, t, p, |p|);
        PathIsMet(mem, level - 1, e.frame, ENTRIES, p[1..], f);
      }
    }
  }

  /** For a root, the frames met are the frames below it. */
  lemma MetIsBelow(s: State, r: nat, n: nat, f: nat)
    requires r in s.roots && n <= LEVELS
    ensures f in Met(s.mem, n, r, USER_ENTRIES) <==> Below(s, r, n, f)
  {
    if f in Met(s.mem, n, r, USER_ENTRIES) {
      var p := MetHasPath(s.mem, n, r, USER_ENTRIES, f);
      assert Reaches(s, r, p, f);
    }
    if Below(s, r, n, f) {
      var p: seq<nat> :| Reaches(s, r, p, f) && p != [] && |p| <= n;
      PathIsMet(s.mem, n, r, USER_ENTRIES, p, f);
    }
  }

  // ------------------------------------------------------------ tree shape

  predicate InRange(p: seq<nat>, level: nat, n: nat) {
    |p| <= level && (p != [] ==> p[0] < n)
  }

  /** Below the first n entries of t every frame is reached in one way, and every
      frame above the last level is a table. */
  ghost predicate Tree(mem: seq<Frame>, level: nat, t: nat, n: nat) {
    && (forall p, p' | InRange(p, level, n) && InRange(p', level, n) && Walk(mem, t, p).Some?
      && Walk(mem, t, p) == Walk(mem, t, p') :: p == p')
    && (forall p | InRange(p, level, n) && |p| < level && Walk(mem, t, p).Some? :: IsTable(mem, Walk(mem, t, p).value))
  }

  lemma RootIsTree(s: State, r: nat)
    requires RootsOk(s) && Typed(s) && Trees(s) && r in s.roots
    ensures Tree(s.mem, LEVELS, r, USER_ENTRIES)
  {
    forall p, p' | InRange(p, LEVELS, USER_ENTRIES) && InRange(p', LEVELS, USER_ENTRIES) && Walk(s.mem, r, p).Some?
      && Walk(s.mem, r, p) == Walk(s.mem, r, p')
      ensures p == p'
    {
      var f := Walk(s.mem, r, p).value;
      assert Reaches(s, r, p, f) && Reaches(s, r, p', f);
    }
    forall p | InRange(p, LEVELS, USER_ENTRIES) && |p| < LEVELS && Walk(s.mem, r, p).Some?
      ensures IsTable(s.mem, Walk(s.mem, r, p).value)
    {
      assert Reaches(s, r, p, Walk(s.mem, r, p).value);
    }
  }

  lemma SubTree(mem: seq<Frame>, level: nat, t: nat, n: nat, i: nat)
    requires Tree(mem, level, t, n) && level > 0 && i < n && Lookup(mem, t, i).Some?
    ensures Tree(mem, level - 1, Lookup(mem, t, i).value.frame, ENTRIES)
  {
    var c := Lookup(mem, t, i).value.frame;
    forall p, p' | InRange(p, level - 1, ENTRIES) && InRange(p', level - 1, ENTRIES) && Walk(mem, c, p).Some?
      && Walk(mem, c, p) == Walk(mem, c, p')
      ensures p == p'
    {
      WalkCons(mem, t, i, p);
      WalkCons(mem, t, i, p');
      assert InRange([i] + p, level, n) && InRange([i] + p', level, n);
      assert ([i] + p)[1..] == p && ([i] + p')[1..] == p';
    }
    forall p | InRange(p, level - 1, ENTRIES) && |p| < level - 1 && Walk(mem, c, p).Some?
      ensures IsTable(mem, Walk(mem, c, p).value)
    {
      WalkCons(mem, t, i, p);
      assert InRange([i] + p, level, n);
    }
  }

  /** The subtree under entry i has nothing in common with the entries before it,
      with its own top, or with t. */
  lemma Disjoint(mem: seq<Frame>, level: nat, t: nat, n: nat, i: nat)
    requires Tree(mem, level, t, n) && level > 0 && i < n <= ENTRIES && Lookup(mem, t, i).Some?
    ensures var c := Lookup(mem, t, i).value.frame;
      && c !in Met(mem, level, t, i)
      && c !in Met(mem, level - 1, c, ENTRIES)
      && Met(mem, level - 1, c, ENTRIES) !! Met(mem, level, t, i)
      && t != c && t !in Met(mem, level - 1, c, ENTRIES) && t !in Met(mem, level, t, i)
  {
    var c := Lookup(mem, t, i).value.frame;
    WalkCons(mem, t, i, []);
    assert [i] + [] == [i];
    assert InRange([i], level, n) && InRange([], level, n);
    forall f | f in Met(mem, level, t, i) ensures f !in {c, t} && f !in Met(mem, level - 1, c, ENTRIES) {
      var p := MetHasPath(mem, level, t, i, f);
      NotUnder(mem, level, t, n, i, p, f);
    }
    var under := Met(mem, level - 1, c, ENTRIES);
    forall f | f in under ensures f != c && f != t {
      StrictlyUnder(mem, level, t, n, i, f);
    }
  }

  lemma StrictlyUnder(mem: seq<Frame>, level: nat, t: nat, n: nat, i: nat, f: nat)
    requires Tree(mem, level, t, n) && level > 0 && i < n <= ENTRIES && Lookup(mem, t, i).Some?
    requires f in Met(mem, level - 1, Lookup(mem, t, i).value.frame, ENTRIES)
    ensures f != t && f != Lookup(mem, t, i).value.frame
  {
    var p := MetHasPath(mem, level - 1, Lookup(mem, t, i).value.frame, ENTRIES, f);
    WalkCons(mem, t, i, []);
    assert [i] + [] == [i];
    WalkCons(mem, t, i, p);
    assert InRange([i] + p, level, n) && InRange([i], level, n) && InRange([], level, n);
  }

  lemma NotUnder(mem: seq<Frame>, level: nat, t: nat, n: nat, i: nat, p: seq<nat>, f: nat)
    requires Tree(mem, level, t, n) && level > 0 && i < n <= ENTRIES && Lookup(mem, t, i).Some?
    requires MetBy(mem, level, t, i, p, f)
    ensures f != t && f != Lookup(mem, t, i).value.frame
    ensures f !in Met(mem, level - 1, Lookup(mem, t, i).value.frame, ENTRIES)
  {
    var c := Lookup(mem, t, i).value.frame;
    assert InRange(p, level, n) && InRange([i], level, n) && InRange([], level, n);
    WalkCons(mem, t, i, []);
    assert [i] + [] == [i];
    forall p': seq<nat> | InRange(p', level - 1, ENTRIES) && Walk(mem, c, p').Some?
      ensures Walk(mem, c, p').value != f
    {
      WalkCons(mem, t, i, p');
      assert InRange([i] + p', level, n) && ([i] + p')[0] == i != p[0];
    }
    if f in Met(mem, level - 1, c, ENTRIES) {
      var p' := MetHasPath(mem, level - 1, c, ENTRIES, f);
    }
  }

  // ------------------------------------------------------------ same shape

  /** The same frames behind the same present entries. */
  ghost predicate SameLinks(mem: seq<Frame>, mem': seq<Frame>) {
    forall t, i :: SameLink(Lookup(mem, t, i), Lookup(mem', t, i))
  }

  predicate SameLink(e: Option<Entry>, e': Option<Entry>) {
    e.Some? == e'.Some? && (e.Some? ==> e.value.frame == e'.value.frame)
  }

  lemma {:induction false} SameMet(mem: seq<Frame>, mem': seq<Frame>, level: nat, t: nat, n: nat)
    requires SameLinks(mem, mem')
    ensures Met(mem', level, t, n) == Met(mem, level, t, n)
    decreases level, n
  {
    if level > 0 && n > 0 {
      SameMet(mem, mem', level, t, n - 1);
      assert SameLink(Lookup(mem, t, n - 1), Lookup(mem', t, n - 1));
      if Lookup(mem, t, n - 1).Some? {
        SameMet(mem, mem', level - 1, Lookup(mem, t, n - 1).value.frame, ENTRIES);
      }
    }
  }

  lemma {:induction false} SameWalk(mem: seq<Frame>, mem': seq<Frame>, t: nat, p: seq<nat>)
    requires SameLinks(mem, mem')
    ensures Walk(mem', t, p) == Walk(mem, t, p)
    decreases |p|
  {
    if p != [] {
      var front, i := p[..|p| - 1], p[|p| - 1];
      SameWalk(mem, mem', t, front);
      if Walk(mem, t, front).Some? {
        var u := Walk(mem, t, front).value;
        assert SameLink(Lookup(mem, u, i), Lookup(mem', u, i));
      }
    }
  }

  lemma SameTree(mem: seq<Frame>, mem': seq<Frame>, level: nat, t: nat, n: nat)
    requires SameLinks(mem, mem') && Tree(mem, level, t, n)
    requires forall f :: IsTable(mem, f) ==> IsTable(mem', f)
    ensures Tree(mem', level, t, n)
  {
    forall p ensures Walk(mem', t, p) == Walk(mem, t, p) { SameWalk(mem, mem', t, p); }
  }

  /** The frames a subtree consists of are the same in both memories. */
  ghost predicate SameOn(mem: seq<Frame>, mem': seq<Frame>, level: nat, t: nat) {
    && |mem'| == |mem| && (t < |mem| ==> mem'[t] == mem[t])
    && forall f :: f in Met(mem, level, t, ENTRIES) && f < |mem| ==> mem'[f] == mem[f]
  }

  lemma {:induction false} MetOn(mem: seq<Frame>, mem': seq<Frame>, level: nat, t: nat, n: nat)
    requires |mem'| == |mem| && (t < |mem| ==> mem'[t] == mem[t])
    requires forall f :: f in Met(mem, level, t, n) && f < |mem| ==> mem'[f] == mem[f]
    ensures Met(mem', level, t, n) == Met(mem, level, t, n)
    decreases level, n
  {
    if level > 0 && n > 0 {
      MetOn(mem, mem', level, t, n - 1);
      assert Lookup(mem', t, n - 1) == Lookup(mem, t, n - 1);
      if Lookup(mem, t, n - 1).Some? {
        MetOn(mem, mem', level - 1, Lookup(mem, t, n - 1).value.frame, ENTRIES);
      }
    }
  }

  lemma {:induction false} WalkOn(mem: seq<Frame>, mem': seq<Frame>, level: nat, t: nat, p: seq<nat>)
    requires SameOn(mem, mem', level, t) && |p| <= level
    ensures Walk(mem', t, p) == Walk(mem, t, p)
    decreases |p|
  {
    if p != [] {
      var front := p[..|p| - 1];
      WalkOn(mem, mem', level, t, front);
      if Walk(mem, t, front).Some? {
        var u := Walk(mem, t, front).value;
        if front != [] {
          WalkPrefix(mem, t, front, |front|);
          PathIsMet(mem, level, t, ENTRIES, front, u);
        }
        assert u < |mem| ==> mem'[u] == mem[u];
      }
    }
  }

  lemma TreeOn(mem: seq<Frame>, mem': seq<Frame>, level: nat, t: nat)
    requires SameOn(mem, mem', level, t) && Tree(mem, level, t, ENTRIES)
    ensures Tree(mem', level, t, ENTRIES)
  {
    forall p | InRange(p, level, ENTRIES)
      ensures Walk(mem', t, p) == Walk(mem, t, p)
    {
      WalkOn(mem, mem', level, t, p);
    }
    forall p | InRange(p, level, ENTRIES) && |p| < level && Walk(mem', t, p).Some?
      ensures IsTable(mem', Walk(mem', t, p).value)
    {
      var u := Walk(mem, t, p).value;
      if p != [] { PathIsMet(mem, level, t, ENTRIES, p, u); }
    }
  }

  // ------------------------------------------------- tables in either half

  /** Whatever a walk of fewer than four steps reaches is a table: below the user half,
      below the kernel half, and through the entry that maps the top table itself. */
  lemma {:induction false} ShortWalk(s: State, r: nat, p: seq<nat>)
    requires Inv(s) && r in s.roots && |p| < LEVELS && Walk(s.mem, r, p).Some?
    ensures IsTable(s.mem, Walk(s.mem, r, p).value)
    decreases |p|
  {
    hide CowReadOnly, CowDown, Private, FlagsUp, Counted, Trees;
    if p != [] {
      WalkPrefix(s.mem, r, p, |p|);
      if p[0] < USER_ENTRIES {
        assert Reaches(s, r, p, Walk(s.mem, r, p).value);
      } else if p[0] < RECURSIVE_ENTRY {
        assert KernelReaches(s, r, p, Walk(s.mem, r, p).value);
      } else {
        assert p == [p[0]] + p[1..];
        WalkCons(s.mem, r, p[0], p[1..]);
        ShortWalk(s, r, p[1..]);
      }
    }
  }

  /** Entries of the kernel half are never copy-on-write. */
  lemma KernelIsNotCow(s: State, r: nat, p: seq<nat>)
    requires Inv(s) && r in s.roots && KernelPath(p) && Ent(s.mem, r, p).Some?
    ensures !Ent(s.mem, r, p).value.cow
  {}
}
