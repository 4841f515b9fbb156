/**
 What the kernel writes to memory that others share. The boot code does not turn on the
 processor's write protection for kernel mode: with it off, an entry for a new page goes
 to a shared table itself, and a byte for a system call to a shared page itself.
 */
module CowShared {
  import opened PageTables
  import opened AddressSpaces
  import opened CowFork
  import opened CowInstall
  import opened CowMap

  /** The entries on the way to the table stay; the new entry is found below it. */
  lemma {:induction false} AbovePut(s: State, s': State, c: Install, r: nat, p: seq<nat>, j: nat)
    requires Inv(s) && NewEntry(s, s', c) && Reaches(s, r, p, c.table) && j <= |p|
    ensures Walk(s'.mem, r, p[..j]) == Walk(s.mem, r, p[..j])
    ensures j > 0 ==> Ent(s'.mem, r, p[..j]) == Ent(s.mem, r, p[..j])
    decreases j
  {
    hide Inv, NewEntry;
    if j > 0 {
      AbovePut(s, s', c, r, p, j - 1);
      assert p[..j] == p[..j - 1] + [p[j - 1]];
      WalkPrefix(s.mem, r, p, j - 1);
      TableAbove(s, s', c, r, p, j - 1, Walk(s.mem, r, p[..j - 1]).value);
      WalkSnoc(s.mem, r, p[..j - 1], p[j - 1]);
      WalkSnoc(s'.mem, r, p[..j - 1], p[j - 1]);
    }
  }

  /** The tables above are others. */
  lemma TableAbove(s: State, s': State, c: Install, r: nat, p: seq<nat>, j: nat, u: nat)
    requires Inv(s) && NewEntry(s, s', c) && Reaches(s, r, p, c.table) && j < |p| && Walk(s.mem, r, p[..j]) == Some(u)
    ensures forall i: nat :: Lookup(s'.mem, u, i) == Lookup(s.mem, u, i)
  {
    hide CowReadOnly, CowDown, Private, FlagsUp, Counted, KernelHalf;
    assert Reaches(s, r, p[..j], u);
    assert |p[..j]| != |p|;
    assert u in s.used by { if j > 0 { assert p[..j] != []; } else { assert u == r; } }
  }

  /** Whoever reaches the table has the new entry. */
  lemma PutIsSeen(s: State, s': State, c: Install, r: nat, p: seq<nat>)
    requires Inv(s) && NewEntry(s, s', c) && Reaches(s, r, p, c.table)
    ensures Ent(s'.mem, r, p + [c.i]) == Some(c.e) && Ent(s.mem, r, p + [c.i]).None?
    ensures Walk(s'.mem, r, p) == Some(c.table) && (p != [] ==> Ent(s'.mem, r, p) == Ent(s.mem, r, p))
  {
    AbovePut(s, s', c, r, p, |p|);
    assert p[..|p|] == p;
    WalkSnoc(s.mem, r, p, c.i);
    WalkSnoc(s'.mem, r, p, c.i);
  }

  /** A new entry keeps the invariant exactly if the table is private: if the entry that
      leads to it is not copy-on-write. */
  lemma NewEntryKeepsInvIff(s: State, s': State, c: Install)
    requires Inv(s) && NewEntry(s, s', c)
    ensures Inv(s') <==> OwnTable(s, c.root, c.p, c.table)
  {
    if OwnTable(s, c.root, c.p, c.table) {
      InstallKeepsInv(s, s', c);
    } else {
      PutIsSeen(s, s', c, c.root, c.p);
      assert c.p != [] && Ent(s.mem, c.root, c.p).value.cow;
      assert Selects(s', c.root, c.p, Ent(s'.mem, c.root, c.p).value);
      assert Selects(s', c.root, c.p + [c.i], c.e);
    }
  }

  /** Everyone else who shares the table finds the page mapped. */
  lemma SharerSees(s: State, s': State, c: Install, r: nat, p: seq<nat>)
    requires Inv(s) && NewEntry(s, s', c) && Reaches(s, r, p, c.table) && |p| + 1 == |c.Path()| == LEVELS
    ensures (r, p + [c.i]) !in AllViews(s) && (r, p + [c.i]) in AllViews(s')
  {
    PutIsSeen(s, s', c, r, p);
    InViews(s, r, p + [c.i]);
    InViews(s', r, p + [c.i]);
    assert PagePath(p + [c.i]);
  }

  lemma SharedAfterFork(s: State, s1: State, parent: nat, child: nat, p: seq<nat>, t: nat)
    requires Inv(s) && ForkStep(s, s1, parent, child) && TableAt(s1, child, p, t) && p != []
    ensures Reaches(s1, parent, p, t) && !OwnTable(s1, child, p, t)
  {
    assert (parent, child) in Forks(s, s1);
    hide Inv, ForkStep, Forks;
    ForkReaches(s, s1, parent, child, child, p, t);
    ForkReaches(s, s1, parent, child, parent, p, t);
    ChildEntries(s, s1, parent, child, p);
  }

  /** After a fork that is so for every page the child maps under a table it was given. */
  lemma MapAfterFork(s: State, s1: State, s2: State, parent: nat, child: nat, c: Install)
    requires Inv(s) && ForkStep(s, s1, parent, child) && NewEntry(s1, s2, c)
    requires c.root == child && |c.Path()| == LEVELS
    ensures (parent, c.Path()) !in AllViews(s1) && (parent, c.Path()) in AllViews(s2) && !Inv(s2)
  {
    hide Inv, ForkStep, AllViews, OwnTable;
    ForkKeepsInv(s, s1, parent, child);
    SharedAfterFork(s, s1, parent, child, c.p, c.table);
    SharerSees(s1, s2, c, parent, c.p);
    NewEntryKeepsInvIff(s1, s2, c);
  }

  /** A write of the kernel's, for a system call, to a page the check accepted. With write
      protection off it goes to the frame, shared or not: it changes the caller's view alone
      exactly if the frame has one reference, or holds that byte already. */
  lemma KernelWriteIff(s: State, s': State, r: nat, q: seq<nat>, offset: nat, b: bv8)
    requires Inv(s) && PageWrite(s, s', r, q, offset, b)
    ensures var f := Walk(s.mem, r, q).value;
      && (r, q) in AllViews(s) && f < |s.refs| && offset < |s.mem[f].bytes| == |AllViews(s)[(r, q)].bytes|
      && (AllViews(s') == Stored(AllViews(s), r, q, offset, b) <==> s.refs[f] == 1 || s.mem[f].bytes[offset] == b)
  {
    var f := Walk(s.mem, r, q).value;
    InViews(s, r, q);
    assert Reaches(s, r, q, f) && q != [];
    if s.mem[f].bytes[offset] == b {
      SameByte(s, s', r, q, offset, b);
    } else if s.refs[f] == 1 {
      forall r', q' | r' in s.roots && PagePath(q') && (r', q') != (r, q)
        ensures Walk(s.mem, r', q') != Walk(s.mem, r, q)
      {
        if Walk(s.mem, r', q') == Some(f) {
          assert Reaches(s, r', q', f);
          TwoPaths(s, f, r, q, r', q');
        }
      }
      WriteChangesOneView(s, s', r, q, offset, b);
    } else {
      var r', q' := Sharer(s, r, q, f);
      OtherSees(s, s', r, q, offset, b, r', q');
    }
  }

  lemma SameByte(s: State, s': State, r: nat, q: seq<nat>, offset: nat, b: bv8)
    requires PageWrite(s, s', r, q, offset, b) && s.mem[Walk(s.mem, r, q).value].bytes[offset] == b
    ensures (r, q) in AllViews(s) && offset < |AllViews(s)[(r, q)].bytes|
    ensures AllViews(s') == Stored(AllViews(s), r, q, offset, b)
  {
    var f := Walk(s.mem, r, q).value;
    InViews(s, r, q);
    assert s.mem[f].bytes[offset := b] == s.mem[f].bytes;
    assert s.mem[f := Data(s.mem[f].bytes)] == s.mem;
    assert AllViews(s)[(r, q)].(bytes := s.mem[f].bytes) == AllViews(s)[(r, q)];
    assert Stored(AllViews(s), r, q, offset, b) == AllViews(s);
  }

  /** Another page on a frame with more than one reference. */
  lemma Sharer(s: State, r: nat, q: seq<nat>, f: nat) returns (r': nat, q': seq<nat>)
    requires Inv(s) && Reaches(s, r, q, f) && PagePath(q) && f < |s.refs| && s.refs[f] != 1
    ensures (r', q') != (r, q) && PagePath(q') && Reaches(s, r', q', f)
  {
    InPaths(s, f, r, q);
    assert s.refs[f] == |Paths(s, f)|;
    var one := {(r, q)};
    assert Paths(s, f) == one ==> |Paths(s, f)| == 1;
    var x :| x in Paths(s, f) && x !in one;
    InPaths(s, f, x.0, x.1);
    r', q' := x.0, x.1;
    assert Reaches(s, r', q', f) && IsData(s.mem, f);
  }

  lemma OtherSees(s: State, s': State, r: nat, q: seq<nat>, offset: nat, b: bv8, r': nat, q': seq<nat>)
    requires Inv(s) && PageWrite(s, s', r, q, offset, b) && PagePath(q') && (r', q') != (r, q)
    requires Reaches(s, r', q', Walk(s.mem, r, q).value) && s.mem[Walk(s.mem, r, q).value].bytes[offset] != b
    ensures (r, q) in AllViews(s) && offset < |AllViews(s)[(r, q)].bytes|
    ensures AllViews(s') != Stored(AllViews(s), r, q, offset, b)
  {
    InViews(s, r, q);
    InViews(s, r', q');
    InViews(s', r', q');
    StoreEntries(s, s', r, q, offset, b, r', q');
    assert AllViews(s')[(r', q')].bytes[offset] == b;
    assert Stored(AllViews(s), r, q, offset, b)[(r', q')] == AllViews(s)[(r', q')];
  }
}
