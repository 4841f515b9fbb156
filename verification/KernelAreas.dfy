/**
 The kernel's virtual address allocator: a doubly linked list of free areas.
 Area descriptors are freshly allocated objects here, and whether the page-table
 mapper succeeded is a parameter of `GetMapping`.
 */
module KernelAreas {
  import opened Basics
  import opened FreeList

  class MemoryArea {
    var offset: nat
    var size: nat
    var next: MemoryArea?
    var prev: MemoryArea?

    constructor (offset: nat, size: nat)
      ensures this.offset == offset && this.size == size && next == null && prev == null
    {
      this.offset, this.size, next, prev := offset, size, null, null;
    }
  }

  ghost function Contents(nodes: seq<MemoryArea>): (s: seq<Area>)
    reads nodes
    ensures |s| == |nodes|
    ensures forall i: nat :: i < |s| ==> s[i] == Area(nodes[i].offset, nodes[i].size)
  {
    if nodes == [] then [] else [Area(nodes[0].offset, nodes[0].size)] + Contents(nodes[1..])
  }

  /** `offset` is the start of a best fit, and the first `size` bytes there went. */
  ghost predicate FromBestFit(before: seq<Area>, size: nat, offset: nat, after: seq<Area>) {
    exists k: nat :: BestFit(before, size, k) && offset == before[k].offset && after == Carved(before, k, size)
  }

  lemma PlaceIs(s: seq<Area>, offset: nat, k: nat)
    requires k <= |s| && forall j: nat :: j < k ==> s[j].offset <= offset
    requires k < |s| ==> s[k].offset > offset
    ensures Place(s, offset) == k
  {}

  lemma Pieces(l: seq<Area>, a: Area, r: seq<Area>, s: seq<Area>)
    requires s == l + [a] + r
    ensures s[..|l|] == l && s[|l|] == a && s[|l| + 1..] == r
    ensures r != [] ==> s[|l| + 1] == r[0] && s[|l| + 2..] == r[1..]
  {}

  /** The list after the first arm of `MergeAdjacent`: the areas left of the merged one, that
      one, and the rest. */
  function LeftOf(s: seq<Area>, i: nat, left: bool): seq<Area>
    requires i < |s| && (left ==> i > 0)
  {
    if left then s[..i - 1] else s[..i]
  }

  function MergedLeft(s: seq<Area>, i: nat, left: bool): Area
    requires i < |s| && (left ==> i > 0)
  {
    if left then Area(s[i - 1].offset, s[i].size + s[i - 1].size) else s[i]
  }

  ghost predicate FirstArmDone(s: seq<Area>, i: nat, left: bool, m: seq<Area>, k: nat)
    requires i < |s|
  {
    if left then k == i - 1 && i > 0 && m == s[..i - 1] + [MergedLeft(s, i, true)] + s[i + 1..] else k == i && m == s
  }

  lemma FirstArm(s: seq<Area>, i: nat, left: bool, m: seq<Area>, k: nat)
    requires i < |s| && (left ==> i > 0) && FirstArmDone(s, i, left, m, k)
    ensures |LeftOf(s, i, left)| == k && m == LeftOf(s, i, left) + [MergedLeft(s, i, left)] + s[i + 1..]
  {}

  lemma SecondArm(l: seq<Area>, b: Area, r: seq<Area>, m: seq<Area>, right: bool, s': seq<Area>)
    requires m == l + [b] + r && (right ==> r != [])
    requires if right
      then s' == m[..|l|] + [Area(m[|l|].offset, m[|l|].size + m[|l| + 1].size)] + m[|l| + 2..] else s' == m
    ensures s' == if right then l + [Area(b.offset, b.size + r[0].size)] + r[1..] else l + [b] + r
  {
    Pieces(l, b, r, m);
  }

  lemma MergedInTwo(s: seq<Area>, i: nat, left: bool, right: bool)
    requires i < |s| && (left <==> i > 0 && s[i - 1].End() == s[i].offset)
    requires right <==> i + 1 < |s| && s[i].End() == s[i + 1].offset
    ensures var l, b, r := LeftOf(s, i, left), MergedLeft(s, i, left), s[i + 1..];
      Merged(s[..i], s[i], r) == if right then l + [Area(b.offset, b.size + r[0].size)] + r[1..] else l + [b] + r
  {
    var l, r := s[..i], s[i + 1..];
    assert left ==> l[|l| - 1] == s[i - 1] && l[..|l| - 1] == s[..i - 1];
    assert right ==> r[0] == s[i + 1];
  }

  /** The two arms together merge with both neighbours that touch. */
  lemma BothArms(s: seq<Area>, i: nat, left: bool, right: bool, m: seq<Area>, k: nat, s': seq<Area>)
    requires i < |s| && (left <==> i > 0 && s[i - 1].End() == s[i].offset)
    requires right <==> i + 1 < |s| && s[i].End() == s[i + 1].offset
    requires FirstArmDone(s, i, left, m, k)
    requires if right
      then k + 1 < |m| && s' == m[..k] + [Area(m[k].offset, m[k].size + m[k + 1].size)] + m[k + 2..] else s' == m
    ensures s' == Merged(s[..i], s[i], s[i + 1..])
  {
    hide Merged, FirstArmDone, LeftOf, MergedLeft;
    FirstArm(s, i, left, m, k);
    SecondArm(LeftOf(s, i, left), MergedLeft(s, i, left), s[i + 1..], m, right, s');
    MergedInTwo(s, i, left, right);
  }

  lemma InRegion(s: seq<Area>, region: Area, k: nat)
    requires Canonical(s) && Free(s) <= Range(region) && k < |s|
    ensures region.offset <= s[k].offset
  {
    Held(s, k, s[k].offset);
  }

  lemma AtBestFit(s: seq<Area>, size: nat, k: nat)
    requires BestFit(s, size, k)
    ensures k < |s| && size <= s[k].size
  {}

  lemma ReturnedToNone(a: Area)
    ensures Returned([], a) == [a]
  {}

  lemma OnlyAt(nodes: seq<MemoryArea>, i: nat)
    requires Distinct(nodes)
    ensures i < |nodes| ==> forall j: nat :: j < |nodes| && j != i ==> nodes[j] != nodes[i]
  {}

  lemma CutKeepsDistinct(nodes: seq<MemoryArea>, i: nat)
    requires Distinct(nodes) && i < |nodes|
    ensures Distinct(nodes[..i] + nodes[i + 1..])
  {}

  lemma InsertKeepsDistinct(nodes: seq<MemoryArea>, i: nat, area: MemoryArea)
    requires Distinct(nodes) && i <= |nodes| && area !in nodes
    ensures Distinct(nodes[..i] + [area] + nodes[i..])
  {}

  class KernelVirtualAllocator {
    var areas: MemoryArea?
    ghost var nodes: seq<MemoryArea>
    ghost var repr: set<MemoryArea>
    ghost const region: Area

    /** `next` and `prev` chain the nodes in order. */
    ghost predicate Linked()
      reads this, nodes
    {
      && Distinct(nodes) && (forall i: nat :: i < |nodes| ==> nodes[i] in repr)
      && areas == (if nodes == [] then null else nodes[0])
      && (forall i: nat {:trigger nodes[i].next} :: i < |nodes| ==>
        nodes[i].next == if i == |nodes| - 1 then null else nodes[i + 1])
      && (forall i: nat {:trigger nodes[i].prev} :: i < |nodes| ==>
        nodes[i].prev == if i == 0 then null else nodes[i - 1])
    }

    lemma Ends()
      requires Linked()
      ensures nodes == [] <==> areas == null
      ensures nodes != [] ==> nodes[0] == areas
    {}

    twostate lemma Same()
      requires old(Linked()) && unchanged(this) && unchanged(repr)
      ensures Linked()
    {}

    lemma LinksAt(i: nat)
      requires Linked() && i < |nodes|
      ensures nodes[i].next == if i == |nodes| - 1 then null else nodes[i + 1]
      ensures nodes[i].prev == if i == 0 then null else nodes[i - 1]
    {}

    ghost function Areas(): seq<Area>
      reads this, nodes
    {
      Contents(nodes)
    }

    ghost predicate Valid()
      reads this, nodes
    {
      Linked() && Canonical(Areas()) && Free(Areas()) <= Range(region) && region.offset > 0
    }

    /** Addresses handed out and not yet given back. */
    ghost function Taken(): iset<nat>
      reads this, nodes
    {
      Range(region) - Free(Areas())
    }

    /** `init`: the first page of the range becomes the first descriptor pool, the rest
        one free area. */
    constructor (start: nat, end: nat)
      requires 0 < start && start + PAGE_SIZE < end
      ensures Valid() && fresh(repr) && region == Area(start + PAGE_SIZE, end - (start + PAGE_SIZE))
      ensures Areas() == [region] && Taken() == iset{}
    {
      areas, nodes, repr, region := null, [], {}, Area(start + PAGE_SIZE, end - (start + PAGE_SIZE));
      new;
      FreeRange(start + PAGE_SIZE, end - (start + PAGE_SIZE));
      assert Areas() == [region];
      FreeOfOne(region);
    }

    method InsertBefore(area: MemoryArea, point: MemoryArea, ghost i: nat)
      requires Linked() && area !in nodes && area in repr && i < |nodes| && nodes[i] == point
      modifies `areas, `nodes, area`next, area`prev, repr`next, repr`prev
      ensures Linked() && nodes == old(nodes[..i] + [area] + nodes[i..])
    {
      hide Contents, Distinct;
      OnlyAt(nodes, i);
      if i > 0 { OnlyAt(nodes, i - 1); }
      InsertKeepsDistinct(nodes, i, area);
      var prev := point.prev;
      assert nodes[i].prev == prev;
      if prev != null {
        prev.next := area;
      } else {
        areas := area;
      }
      area.prev := prev;
      area.next := point;
      point.prev := area;
      nodes := nodes[..i] + [area] + nodes[i..];
      ghost var was := old(nodes);
      assert forall j: nat :: j < |nodes| ==> nodes[j] == if j < i then was[j] else if j == i then area else was[j - 1];
    }

    twostate lemma AreasAfterCut(i: nat)
      requires i < old(|nodes|) && nodes == old(nodes[..i] + nodes[i + 1..])
      requires forall j: nat :: j < old(|nodes|) ==>
        old(nodes)[j].offset == old(nodes[j].offset) && old(nodes)[j].size == old(nodes[j].size)
      ensures Areas() == old(Areas()[..i] + Areas()[i + 1..])
    {
      hide Contents;
    }

    method CutNode(area: MemoryArea, ghost i: nat)
      requires Linked() && i < |nodes| && nodes[i] == area
      modifies `areas, `nodes, repr`next, repr`prev
      ensures Linked() && nodes == old(nodes[..i] + nodes[i + 1..])
    {
      hide Contents, Distinct;
      OnlyAt(nodes, i);
      OnlyAt(nodes, i + 1);
      if i > 0 { OnlyAt(nodes, i - 1); }
      CutKeepsDistinct(nodes, i);
      assert nodes[i].prev == area.prev && nodes[i].next == area.next;
      if area.prev != null {
        area.prev.next := area.next;
      } else {
        areas := area.next;
      }
      if area.next != null {
        area.next.prev := area.prev;
      }
      nodes := nodes[..i] + nodes[i + 1..];
      ghost var was := old(nodes);
      assert forall j: nat :: j < |nodes| ==> nodes[j] == if j < i then was[j] else was[j + 1];
    }

    /** The two arms of `MergeAdjacent`: take over one neighbour's addresses and
        unlink it. */
    method AbsorbPrev(area: MemoryArea, ghost i: nat)
      requires Linked() && 0 < i < |nodes| && nodes[i] == area
      modifies this, repr
      ensures Linked() && repr == old(repr)
      ensures |nodes| == old(|nodes|) - 1 && nodes[i - 1] == area
      ensures Areas() == old(Areas()[..i - 1] + [Area(Areas()[i - 1].offset,
        Areas()[i].size + Areas()[i - 1].size)] + Areas()[i + 1..])
    {
      hide Contents;
      LinksAt(i);
      ghost var s := Areas();
      var prev := area.prev;
      area.offset := area.prev.offset;
      area.size := area.size + area.prev.size;
      assert Areas() == s[i := Area(area.offset, area.size)];
      label Resized:
      CutNode(prev, i - 1);
      AreasAfterCut@Resized(i - 1);
    }

    method AbsorbNext(area: MemoryArea, ghost i: nat)
      requires Linked() && i + 1 < |nodes| && nodes[i] == area
      modifies this, repr
      ensures Linked() && repr == old(repr)
      ensures Areas() == old(Areas()[..i] + [Area(Areas()[i].offset,
        Areas()[i].size + Areas()[i + 1].size)] + Areas()[i + 2..])
    {
      hide Contents;
      LinksAt(i);
      ghost var s := Areas();
      var next := area.next;
      area.size := area.size + area.next.size;
      assert Areas() == s[i := Area(area.offset, area.size)];
      label Resized:
      CutNode(next, i + 1);
      AreasAfterCut@Resized(i + 1);
    }

    /** Which neighbours touch an area. */
    method Touches(area: MemoryArea, ghost i: nat) returns (mergeLeft: bool, mergeRight: bool)
      requires Linked() && i < |nodes| && nodes[i] == area
      ensures mergeLeft <==> i > 0 && Areas()[i - 1].End() == Areas()[i].offset
      ensures mergeRight <==> i + 1 < |nodes| && Areas()[i].End() == Areas()[i + 1].offset
    {
      hide Contents, Distinct, Linked;
      LinksAt(i);
      mergeLeft, mergeRight := false, false;
      if area.prev != null {
        mergeLeft := area.prev.offset + area.prev.size == area.offset;
      }
      if area.next != null {
        mergeRight := area.offset + area.size == area.next.offset;
      }
    }

    method MergeAdjacent(area: MemoryArea, ghost i: nat)
      requires Linked() && i < |nodes| && nodes[i] == area
      modifies this, repr
      ensures Linked() && repr == old(repr)
      ensures Areas() == old(Merged(Areas()[..i], Areas()[i], Areas()[i + 1..]))
    {
      hide Contents, Distinct, Linked, Merged;
      ghost var s, k := Areas(), i;
      var mergeLeft, mergeRight := Touches(area, i);
      if mergeLeft {
        AbsorbPrev(area, i);
        k := i - 1;
      }
      ghost var m := Areas();
      assert FirstArmDone(s, i, mergeLeft, m, k);
      if mergeRight {
        AbsorbNext(area, k);
      }
      BothArms(s, i, mergeLeft, mergeRight, m, k, Areas());
    }

    method PutLast(area: MemoryArea, last: MemoryArea)
      requires Linked() && area !in nodes && area in repr && nodes != [] && nodes[|nodes| - 1] == last
      modifies `nodes, area`next, area`prev, last`next
      ensures Linked() && nodes == old(nodes) + [area]
    {
      last.next := area;
      area.prev := last;
      area.next := null;
      nodes := nodes + [area];
    }

    method FreeMapping(area: MemoryArea)
      requires Linked() && area !in nodes && area.next == null && area.prev == null
      modifies this, repr, area
      ensures Linked() && repr == old(repr) + {area}
      ensures Areas() == Returned(old(Areas()), old(Area(area.offset, area.size)))
    {
      hide Contents, Merged, Distinct;
      ghost var s, a := Areas(), Area(area.offset, area.size);
      var current := areas;
      Ends();
      repr := repr + {area};
      if current == null {
        areas := area;
        nodes := [area];
        Alone();
        assert Areas() == [a] && s == [];
        ReturnedToNone(a);
        return;
      }
      assert Linked();
      hide Linked;
      ghost var k := Link(area, current);
      PlaceIs(s, a.offset, k);
      assert Areas() == s[..k] + [a] + s[k..];
      assert Areas()[..k] == s[..k] && Areas()[k] == a && Areas()[k + 1..] == s[k..];
      MergeAdjacent(area, k);
    }

    lemma Alone()
      requires areas != null && nodes == [areas] && areas in repr && areas.next == null && areas.prev == null
      ensures Linked()
    {}

    /** The search of `FreeMapping`: link the area in before the first one that
        starts later. */
    method Link(area: MemoryArea, first: MemoryArea) returns (ghost k: nat)
      requires Linked() && area !in nodes && area in repr && areas == first
      modifies `areas, `nodes, repr`next, repr`prev
      ensures Linked() && k <= old(|nodes|) && nodes == old(nodes[..k] + [area] + nodes[k..])
      ensures forall j: nat :: j < k ==> old(nodes[j]).offset <= area.offset
      ensures k < old(|nodes|) ==> old(nodes[k]).offset > area.offset
    {
      hide Distinct, Linked, Contents;
      var current := first;
      k := 0;
      Ends();
      while current.next != null
        invariant unchanged(this) && unchanged(repr)
        invariant k < |nodes| && nodes[k] == current
        invariant forall j: nat :: j < k ==> nodes[j].offset <= area.offset
        decreases |nodes| - k
      {
        Same();
        LinksAt(k);
        if current.offset > area.offset {
          InsertBefore(area, current, k);
          return;
        }
        current := current.next;
        k := k + 1;
      }
      Same();
      LinksAt(k);
      if current.offset > area.offset {
        InsertBefore(area, current, k);
      } else {
        PutLast(area, current);
        k := k + 1;
      }
    }

    method FindBestFit(requestedSize: nat) returns (bestFit: MemoryArea?, ghost k: nat)
      requires Valid()
      ensures bestFit != null ==> k < |nodes| && nodes[k] == bestFit && BestFit(Areas(), requestedSize, k)
      ensures bestFit == null ==> forall j: nat :: j < |nodes| ==> nodes[j].size < requestedSize
      ensures requestedSize > 0 ==> (bestFit != null <==> HasRun(Areas(), requestedSize))
    {
      hide Contents, Canonical, HasRun, Free, Range;
      bestFit := null;
      ghost var s := Areas();
      var current := areas;
      ghost var i := 0;
      k := 0;
      while current != null
        invariant i <= |nodes| && current == if i == |nodes| then null else nodes[i]
        invariant bestFit == null ==> forall j: nat :: j < i ==> nodes[j].size < requestedSize
        invariant bestFit != null ==> k < i && nodes[k] == bestFit && BestFit(s[..i], requestedSize, k)
        decreases |nodes| - i
      {
        if current.size >= requestedSize {
          if bestFit == null {
            bestFit, k := current, i;
          } else if bestFit.size > current.size {
            bestFit, k := current, i;
          }
        }
        assert nodes[i].next == current.next && s[i].size == current.size;
        current := current.next;
        i := i + 1;
      }
      assert s[..i] == s;
      if requestedSize > 0 {
        FitIffRun(Areas(), requestedSize);
      }
    }

    /** The tail of `GetMapping`: the front of an area goes, and with it the node
        once nothing is left of it. */
    method Carve(bestFit: MemoryArea, size: nat, ghost k: nat)
      requires Linked() && k < |nodes| && nodes[k] == bestFit && size <= bestFit.size
      modifies `areas, `nodes, repr
      ensures Linked() && Areas() == Carved(old(Areas()), k, size)
    {
      hide Contents;
      ghost var before := Areas();
      bestFit.offset := bestFit.offset + size;
      bestFit.size := bestFit.size - size;
      assert Areas() == before[k := Area(bestFit.offset, bestFit.size)];
      if bestFit.size == 0 {
        label Resized:
        CutNode(bestFit, k);
        AreasAfterCut@Resized(k);
      }
      assert Areas() == Carved(before, k, size);
    }

    /** The address of a mapping of `size` bytes, or 0. */
    method GetMapping(size: nat, mapped: bool) returns (offset: nat)
      requires Valid()
      modifies this, repr
      ensures Valid() && repr == old(repr)
      ensures size > 0 ==> (offset != 0 <==> mapped && HasRun(old(Areas()), size))
      ensures offset == 0 ==> Areas() == old(Areas())
      ensures offset != 0 ==> mapped && FromBestFit(old(Areas()), size, offset, Areas())
      ensures offset != 0 ==> Range(Area(offset, size)) !! old(Taken())
      ensures offset != 0 ==> Taken() == old(Taken()) + Range(Area(offset, size))
    {
      hide Contents, Canonical, HasRun, Free, Range, BestFit, Linked, Carved;
      var bestFit, k := FindBestFit(size);
      if bestFit == null {
        return 0;
      }
      offset := bestFit.offset;
      if !mapped {
        return 0;
      }
      ghost var before := Areas();
      AtBestFit(before, size, k);
      InRegion(before, region, k);
      CarveKeepsForm(before, k, size);
      Carve(bestFit, size, k);
    }

    lemma NoRange(offset: nat)
      ensures Range(Area(offset, 0)) == iset{}
    {}

    method FreeRange(virtualAddr: nat, size: nat)
      requires Valid() && Range(Area(virtualAddr, size)) <= Taken()
      modifies this, repr
      ensures Valid() && fresh(repr - old(repr))
      ensures size == 0 ==> Areas() == old(Areas())
      ensures size > 0 ==> Areas() == Returned(old(Areas()), Area(virtualAddr, size))
      ensures Taken() == old(Taken()) - Range(Area(virtualAddr, size))
    {
      hide Contents, Distinct, Canonical, Returned, Free, Range;
      if size == 0 {
        NoRange(virtualAddr);
        return;
      }
      var area := new MemoryArea(virtualAddr, size);
      ReturnKeepsForm(Areas(), Area(virtualAddr, size));
      FreeMapping(area);
    }

    /** Returning everything, in any order, leaves the one initial area. */
    lemma AllGivenBack()
      requires Valid() && Taken() == iset{} && region.size > 0
      ensures Areas() == [region]
    {
      FreeOfOne(region);
      assert Canonical([region]);
      forall x: nat | x in Range(region) ensures x in Free(Areas()) {
        assert x !in Taken();
      }
      CanonicalIsUnique(Areas(), [region]);
    }
  }

  // -------------------------------------------------------------- whole runs

  datatype Request = Take(size: nat, mapped: bool) | Give(area: Area)

  /** The free list beside the addresses its callers hold. */
  ghost predicate Step(region: Area, s: seq<Area>, held: iset<nat>, q: Request, s': seq<Area>, held': iset<nat>) {
    match q
    case Take(size, mapped) =>
      if mapped && exists k: nat :: BestFit(s, size, k) then
        exists offset: nat :: FromBestFit(s, size, offset, s') && held' == held + Range(Area(offset, size))
      else s' == s && held' == held
    case Give(area) =>
      Range(area) <= held && held' == held - Range(area)
      && s' == if area.size == 0 then s else Returned(s, area)
  }

  datatype Run = Start | After(before: Run, request: Request, areas: seq<Area>, held: iset<nat>)

  ghost function ListOf(region: Area, run: Run): seq<Area> {
    if run.Start? then [region] else run.areas
  }

  ghost function HeldOf(run: Run): iset<nat> {
    if run.Start? then iset{} else run.held
  }

  ghost predicate IsRun(region: Area, run: Run) {
    run.Start? ||
      (IsRun(region, run.before)
      && Step(region, ListOf(region, run.before), HeldOf(run.before), run.request, run.areas, run.held))
  }

  lemma StepKeepsPartition(region: Area, s: seq<Area>, held: iset<nat>, q: Request, s': seq<Area>, held': iset<nat>)
    requires Step(region, s, held, q, s', held')
    requires Canonical(s) && Free(s) !! held && Free(s) + held == Range(region)
    ensures Canonical(s') && Free(s') !! held' && Free(s') + held' == Range(region)
  {
    hide Canonical, Free, Range, Carved, Returned, BestFit;
    match q
    case Take(size, mapped) =>
      if mapped && exists k: nat :: BestFit(s, size, k) {
        var offset: nat :| FromBestFit(s, size, offset, s') && held' == held + Range(Area(offset, size));
        var k := FoundAt(s, size, offset, s');
        CarveKeepsForm(s, k, size);
      }
    case Give(area) =>
      if area.size == 0 { NothingThere(area); } else { ReturnKeepsForm(s, area); }
  }

  lemma FoundAt(s: seq<Area>, size: nat, offset: nat, s': seq<Area>) returns (k: nat)
    requires FromBestFit(s, size, offset, s')
    ensures k < |s| && size <= s[k].size && offset == s[k].offset && s' == Carved(s, k, size)
  {
    k :| BestFit(s, size, k) && offset == s[k].offset && s' == Carved(s, k, size);
  }

  lemma NothingThere(a: Area)
    requires a.size == 0
    ensures Range(a) == iset{}
  {}

  /** In every run the list is canonical and, with what is held, partitions the
      region. */
  lemma {:induction false} RunKeepsPartition(region: Area, run: Run)
    requires IsRun(region, run) && region.size > 0
    ensures var s := ListOf(region, run); var held := HeldOf(run);
      Canonical(s) && Free(s) !! held && Free(s) + held == Range(region)
  {
    if run.Start? {
      FreeOfOne(region);
    } else {
      RunKeepsPartition(region, run.before);
      StepKeepsPartition(region, ListOf(region, run.before), HeldOf(run.before), run.request, run.areas, run.held);
    }
  }

  /** The list remembers no history: two runs that hold the same addresses have the
      same list. A run that holds nothing is back at the one initial area. */
  lemma HistoryLeavesNoTrace(region: Area, one: Run, two: Run)
    requires IsRun(region, one) && IsRun(region, two) && region.size > 0
    ensures HeldOf(one) == HeldOf(two) ==> ListOf(region, one) == ListOf(region, two)
    ensures HeldOf(one) == iset{} ==> ListOf(region, one) == [region]
  {
    hide Canonical, Free, Range, IsRun;
    RunKeepsPartition(region, one);
    RunKeepsPartition(region, two);
    SameRest(region, ListOf(region, one), ListOf(region, two), HeldOf(one), HeldOf(two));
    OneArea(region);
    SameRest(region, ListOf(region, one), [region], HeldOf(one), iset{});
  }

  lemma OneArea(region: Area)
    requires region.size > 0
    ensures Canonical([region]) && Free([region]) == Range(region)
  {
    FreeOfOne(region);
  }

  lemma SameRest(region: Area, a: seq<Area>, b: seq<Area>, held: iset<nat>, held': iset<nat>)
    requires Canonical(a) && Free(a) !! held && Free(a) + held == Range(region)
    requires Canonical(b) && Free(b) !! held' && Free(b) + held' == Range(region)
    ensures held == held' ==> a == b
  {
    hide Canonical, Free, Range;
    if held == held' {
      forall x: nat ensures x in Free(a) <==> x in Free(b) {
        assert x in Free(a) <==> x in Range(region) && x !in held;
      }
      CanonicalIsUnique(a, b);
    }
  }
}
