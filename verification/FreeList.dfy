/**
 Free lists as values: sequences of areas, the address sets they stand for, and
 the canonical form the kernel's list keeps.
 */
module FreeList {

  datatype Area = Area(offset: nat, size: nat)
  {
    function End(): nat { offset + size }

    predicate Has(x: nat) { offset <= x < End() }
  }

  /** The addresses of one area, and of a list of areas. */
  ghost function Range(a: Area): iset<nat> {
    iset x: nat | a.Has(x)
  }

  ghost predicate Covers(s: seq<Area>, x: nat) {
    exists i: nat :: i < |s| && s[i].Has(x)
  }

  ghost function Free(s: seq<Area>): iset<nat> {
    iset x: nat | Covers(s, x)
  }

  lemma Held(s: seq<Area>, k: nat, x: nat)
    requires k < |s|
    ensures s[k].Has(x) ==> x in Free(s)
  {}

  lemma FreeOfOne(a: Area)
    ensures Free([a]) == Range(a)
  {
    assert forall x: nat :: a.Has(x) ==> [a][0].Has(x);
  }

  lemma FreeOfConcat(a: seq<Area>, b: seq<Area>)
    ensures Free(a + b) == Free(a) + Free(b)
  {
    forall x: nat ensures Covers(a + b, x) <==> Covers(a, x) || Covers(b, x) {
      if i: nat :| i < |a| && a[i].Has(x) { assert (a + b)[i].Has(x); }
      if i: nat :| i < |b| && b[i].Has(x) { assert (a + b)[|a| + i].Has(x); }
    }
  }

  lemma FreeOfThree(l: seq<Area>, a: Area, r: seq<Area>)
    ensures Free(l + [a] + r) == Free(l) + Range(a) + Free(r)
  {
    FreeOfConcat(l + [a], r);
    FreeOfConcat(l, [a]);
    FreeOfOne(a);
  }

  // ---------------------------------------------------------- canonical form

  /** Sorted, disjoint, nothing empty, and no two areas adjacent. */
  ghost predicate Canonical(s: seq<Area>) {
    && (forall i: nat :: i < |s| ==> s[i].size > 0)
    && (forall i: nat, j: nat :: i < j < |s| ==> s[i].End() < s[j].offset)
  }

  ghost predicate AllEndBefore(s: seq<Area>, x: nat) {
    forall i: nat :: i < |s| ==> s[i].End() < x
  }

  ghost predicate AllStartAfter(s: seq<Area>, x: nat) {
    forall i: nat :: i < |s| ==> x < s[i].offset
  }

  lemma Split(s: seq<Area>, i: nat)
    requires Canonical(s) && i < |s|
    ensures s == s[..i] + [s[i]] + s[i + 1..]
    ensures Canonical(s[..i]) && Canonical(s[i + 1..])
    ensures AllEndBefore(s[..i], s[i].offset) && AllStartAfter(s[i + 1..], s[i].End())
  {}

  lemma Halve(s: seq<Area>, i: nat)
    requires Canonical(s) && i <= |s|
    ensures s == s[..i] + s[i..] && Canonical(s[..i]) && Canonical(s[i..])
  {}

  lemma Glue(l: seq<Area>, a: Area, r: seq<Area>)
    requires Canonical(l) && Canonical(r) && a.size > 0
    requires AllEndBefore(l, a.offset) && AllStartAfter(r, a.End())
    ensures Canonical(l + [a] + r)
  {
    var s := l + [a] + r;
    forall i: nat, j: nat | i < j < |s| ensures s[i].End() < s[j].offset {
      assert s[i] == if i < |l| then l[i] else if i == |l| then a else r[i - |l| - 1];
      assert s[j] == if j < |l| then l[j] else if j == |l| then a else r[j - |l| - 1];
    }
  }

  lemma GlueNone(l: seq<Area>, x: nat, r: seq<Area>)
    requires Canonical(l) && Canonical(r) && AllEndBefore(l, x) && AllStartAfter(r, x)
    ensures Canonical(l + r)
  {
    var s := l + r;
    forall i: nat, j: nat | i < j < |s| ensures s[i].End() < s[j].offset {
      assert s[i] == if i < |l| then l[i] else r[i - |l|];
      assert s[j] == if j < |l| then l[j] else r[j - |l|];
    }
  }

  /** Two canonical lists of the same addresses are the same list. */
  lemma {:induction false} CanonicalIsUnique(a: seq<Area>, b: seq<Area>)
    requires Canonical(a) && Canonical(b) && Free(a) == Free(b)
    ensures a == b
    decreases |a|
  {
    if a == [] {
      if b != [] { Held(b, 0, b[0].offset); }
    } else {
      Held(a, 0, a[0].offset);
      assert b != [];
      HeadIsLeast(a, b);
      HeadIsLeast(b, a);
      FreeHead(a);
      FreeHead(b);
      SameEnd(a, b);
      SameEnd(b, a);
      CanonicalIsUnique(a[1..], b[1..]);
      assert a == [a[0]] + a[1..] && b == [b[0]] + b[1..];
    }
  }

  lemma FreeHead(s: seq<Area>)
    requires Canonical(s) && s != []
    ensures Canonical(s[1..]) && Free(s) == Range(s[0]) + Free(s[1..]) && Range(s[0]) !! Free(s[1..])
    ensures s[0].End() !in Free(s)
  {
    assert s == [s[0]] + s[1..];
    FreeOfConcat([s[0]], s[1..]);
    FreeOfOne(s[0]);
  }

  lemma HeadIsLeast(a: seq<Area>, b: seq<Area>)
    requires Canonical(a) && Canonical(b) && a != [] && b != [] && Free(a) == Free(b)
    ensures a[0].offset <= b[0].offset
  {
    assert b[0].Has(b[0].offset) && b[0].offset in Free(b);
  }

  lemma SameEnd(a: seq<Area>, b: seq<Area>)
    requires a != [] && b != [] && a[0].offset == b[0].offset && a[0].size > 0 && b[0].size > 0
    requires Free(a) == Free(b) && a[0].End() !in Free(a)
    ensures b[0].End() <= a[0].End()
  {
    Held(b, 0, a[0].End());
  }

  // ----------------------------------------------------------------- carving

  /** The list after `size` addresses are taken from the front of area i. */
  function Carved(s: seq<Area>, i: nat, size: nat): seq<Area>
    requires i < |s| && size <= s[i].size
  {
    if size == s[i].size then s[..i] + s[i + 1..]
    else s[..i] + [Area(s[i].offset + size, s[i].size - size)] + s[i + 1..]
  }

  lemma CarveKeepsForm(s: seq<Area>, i: nat, size: nat)
    requires Canonical(s) && i < |s| && size <= s[i].size
    ensures Canonical(Carved(s, i, size))
    ensures Free(Carved(s, i, size)) == Free(s) - Range(Area(s[i].offset, size))
    ensures Range(Area(s[i].offset, size)) <= Free(s)
  {
    hide Canonical;
    var l, a, r := s[..i], s[i], s[i + 1..];
    Split(s, i);
    FreeOfThree(l, a, r);
    Around(l, a, r);
    var b := Area(a.offset + size, a.size - size);
    if size == a.size {
      forall k: nat | k < |r| ensures a.offset < r[k].offset {}
      GlueNone(l, a.offset, r);
      FreeOfConcat(l, r);
    } else {
      Widen(l, a.offset, b.offset);
      Glue(l, b, r);
      FreeOfThree(l, b, r);
    }
  }

  lemma Widen(l: seq<Area>, x: nat, y: nat)
    requires AllEndBefore(l, x) && x <= y
    ensures AllEndBefore(l, y)
  {}

  /** What lies before and after an area holds none of its addresses. */
  lemma Around(l: seq<Area>, a: Area, r: seq<Area>)
    requires AllEndBefore(l, a.offset) && AllStartAfter(r, a.End())
    ensures Free(l) !! Range(a) && Free(r) !! Range(a)
  {}

  // ------------------------------------------------------ giving areas back

  /** Where an area goes back: before the first one that starts later. */
  function Place(s: seq<Area>, offset: nat): (i: nat)
    ensures i <= |s|
    ensures forall k: nat :: k < i ==> s[k].offset <= offset
    ensures i < |s| ==> s[i].offset > offset
  {
    if s == [] || s[0].offset > offset then 0 else 1 + Place(s[1..], offset)
  }

  /** Area `a` between `l` and `r`, fused with the neighbours it touches. */
  function Merged(l: seq<Area>, a: Area, r: seq<Area>): seq<Area> {
    var left := l != [] && l[|l| - 1].End() == a.offset;
    var right := r != [] && a.End() == r[0].offset;
    var start := if left then l[|l| - 1].offset else a.offset;
    var end := if right then r[0].End() else a.End();
    (if left then l[..|l| - 1] else l) + [Area(start, end - start)] + if right then r[1..] else r
  }

  /** The list after an area is given back. */
  function Returned(s: seq<Area>, a: Area): seq<Area> {
    var i := Place(s, a.offset);
    Merged(s[..i], a, s[i..])
  }

  ghost predicate AllEndBy(s: seq<Area>, x: nat) {
    forall i: nat :: i < |s| ==> s[i].End() <= x
  }

  ghost predicate AllStartFrom(s: seq<Area>, x: nat) {
    forall i: nat :: i < |s| ==> x <= s[i].offset
  }

  /** Giving back addresses that were not free keeps the list canonical and adds
      exactly those addresses. */
  lemma ReturnKeepsForm(s: seq<Area>, a: Area)
    requires Canonical(s) && a.size > 0 && Range(a) !! Free(s)
    ensures Canonical(Returned(s, a)) && Free(Returned(s, a)) == Free(s) + Range(a)
  {
    var i := Place(s, a.offset);
    assert Returned(s, a) == Merged(s[..i], a, s[i..]);
    hide *;
    PlaceParts(s, a, i);
    MergeKeepsForm(s[..i], a, s[i..]);
  }

  /** What stands before and after the place of an area that is given back. */
  lemma PlaceParts(s: seq<Area>, a: Area, i: nat)
    requires Canonical(s) && a.size > 0 && Range(a) !! Free(s) && i == Place(s, a.offset)
    ensures Canonical(s[..i]) && Canonical(s[i..]) && Free(s) == Free(s[..i]) + Free(s[i..])
    ensures AllEndBy(s[..i], a.offset) && AllStartFrom(s[i..], a.End())
  {
    hide Canonical, Free, Range, AllEndBy, AllStartFrom, Covers;
    var l, r := s[..i], s[i..];
    Halve(s, i);
    FreeOfConcat(l, r);
    EndsBy(l, a);
    StartsFrom(r, a);
  }

  lemma EndsBy(l: seq<Area>, a: Area)
    requires a.size > 0 && Range(a) !! Free(l) && forall k: nat :: k < |l| ==> l[k].offset <= a.offset
    ensures AllEndBy(l, a.offset)
  {
    assert a.Has(a.offset) && a.offset in Range(a);
    forall k: nat | k < |l| ensures l[k].End() <= a.offset { Held(l, k, a.offset); }
  }

  lemma StartsFrom(r: seq<Area>, a: Area)
    requires Canonical(r) && Range(a) !! Free(r) && (r != [] ==> a.offset < r[0].offset)
    ensures AllStartFrom(r, a.End())
  {
    forall k: nat | k < |r| ensures a.End() <= r[k].offset {
      assert k > 0 ==> r[0].End() < r[k].offset;
      Held(r, k, r[k].offset);
      assert r[k].offset !in Range(a);
    }
  }

  lemma MergeKeepsForm(l: seq<Area>, a: Area, r: seq<Area>)
    requires Canonical(l) && Canonical(r) && a.size > 0
    requires AllEndBy(l, a.offset) && AllStartFrom(r, a.End())
    ensures Canonical(Merged(l, a, r)) && Free(Merged(l, a, r)) == Free(l) + Range(a) + Free(r)
  {
    hide Canonical, Free, Range, AllEndBy, AllStartFrom, AllEndBefore, AllStartAfter;
    var l', b := FuseLeft(l, a);
    var r', c := FuseRight(b, a.offset, a.End(), r);
    assert Merged(l, a, r) == l' + [c] + r';
    Glue(l', c, r');
    FreeOfThree(l', c, r');
  }

  lemma FuseLeft(l: seq<Area>, a: Area) returns (l': seq<Area>, b: Area)
    requires Canonical(l) && a.size > 0 && AllEndBy(l, a.offset)
    ensures Canonical(l') && AllEndBefore(l', b.offset) && b.End() == a.End() && b.offset <= a.offset
    ensures Free(l') + Range(b) == Free(l) + Range(a)
    ensures var left := l != [] && l[|l| - 1].End() == a.offset;
      && l' == (if left then l[..|l| - 1] else l)
      && b.offset == if left then l[|l| - 1].offset else a.offset
  {
    if l != [] && l[|l| - 1].End() == a.offset {
      var z := l[|l| - 1];
      l', b := l[..|l| - 1], Area(z.offset, z.size + a.size);
      Split(l, |l| - 1);
      assert l == l' + [z];
      FreeOfConcat(l', [z]);
      FreeOfOne(z);
      assert forall x: nat :: b.Has(x) <==> z.Has(x) || a.Has(x);
    } else {
      l', b := l, a;
      if l != [] {
        forall k: nat | k < |l| ensures l[k].End() < a.offset {
          assert k < |l| - 1 ==> l[k].End() < l[|l| - 1].offset;
        }
      }
    }
  }

  lemma FuseRight(b: Area, start: nat, end: nat, r: seq<Area>) returns (r': seq<Area>, c: Area)
    requires Canonical(r) && b.offset <= start < end == b.End() && AllStartFrom(r, end)
    ensures Canonical(r') && AllStartAfter(r', c.End()) && c.offset == b.offset && c.End() >= end
    ensures Range(c) + Free(r') == Range(b) + Free(r)
    ensures var right := r != [] && end == r[0].offset;
      && r' == (if right then r[1..] else r)
      && c.End() == if right then r[0].End() else end
  {
    if r != [] && end == r[0].offset {
      var z := r[0];
      r', c := r[1..], Area(b.offset, b.size + z.size);
      Split(r, 0);
      assert r == [z] + r';
      FreeOfConcat([z], r');
      FreeOfOne(z);
      assert forall x: nat :: c.Has(x) <==> b.Has(x) || z.Has(x);
    } else {
      r', c := r, b;
      if r != [] {
        forall k: nat | k < |r| ensures end < r[k].offset {
          assert k > 0 ==> r[0].End() < r[k].offset;
        }
      }
    }
  }

  // --------------------------------------------------------------- best fit

  /** Area k is the smallest that fits, the earliest among equals. */
  ghost predicate BestFit(s: seq<Area>, size: nat, k: nat) {
    && k < |s| && s[k].size >= size
    && (forall j: nat :: j < |s| && s[j].size >= size ==> s[k].size <= s[j].size)
    && (forall j: nat :: j < k && s[j].size >= size ==> s[k].size < s[j].size)
  }

  /** Some run of `size` consecutive addresses is free. */
  ghost predicate HasRun(s: seq<Area>, size: nat) {
    exists x: nat :: Range(Area(x, size)) <= Free(s)
  }

  /** Because nothing adjacent is left unmerged, a free run lies in one area: some
      area is large enough exactly when there is a free run of that size. */
  lemma FitIffRun(s: seq<Area>, size: nat)
    requires Canonical(s) && size > 0
    ensures HasRun(s, size) <==> exists k: nat :: k < |s| && s[k].size >= size
  {
    if k: nat :| k < |s| && s[k].size >= size {
      var run := Area(s[k].offset, size);
      forall x: nat | x in Range(run) ensures x in Free(s) { assert s[k].Has(x); }
    }
    if x: nat :| Range(Area(x, size)) <= Free(s) {
      assert Area(x, size).Has(x) && x in Range(Area(x, size));
      var k: nat :| k < |s| && s[k].Has(x);
      RunStaysInside(s, k, x, size);
    }
  }

  lemma RunStaysInside(s: seq<Area>, k: nat, x: nat, size: nat)
    requires Canonical(s) && k < |s| && s[k].Has(x) && Range(Area(x, size)) <= Free(s)
    ensures x + size <= s[k].End()
  {
    var end := s[k].End();
    EndIsTaken(s, k);
    assert end !in Range(Area(x, size));
  }

  lemma EndIsTaken(s: seq<Area>, k: nat)
    requires Canonical(s) && k < |s|
    ensures s[k].End() !in Free(s)
  {
    forall j: nat | j < |s| ensures !s[j].Has(s[k].End()) {}
  }
}
