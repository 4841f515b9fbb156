/**
 The ELF loader: which program headers are accepted, and the reservation of their
 ranges in a fresh user allocator. Reading the file is not modelled.
 */
module Elf {
  import opened Basics
  import opened FreeList
  import opened UserAreas

  const ELF_NULL: nat := 0
  const ELF_LOAD: nat := 1

  type Word = x: nat | x < WORD_LIMIT

  datatype ProgramHeaderEntry =
    ProgramHeaderEntry(kind: nat, flags: bv32, offset: int, vaddr: Word, fileSize: int, memorySize: Word)
  {
    function Base(): nat { AlignDown(vaddr) }

    /** The page-aligned end as the loader computes it, in 64-bit arithmetic. */
    function Limit(): nat { AlignUp((vaddr + memorySize) % WORD_LIMIT) }

    predicate NoWrap() { vaddr + memorySize <= WORD_LIMIT - PAGE_SIZE }
  }

  datatype ElfMemoryArea = ElfMemoryArea(mappingFlags: bv64, memoryBase: nat, memoryOffset: nat, memoryLimit: nat,
                                         fileOffset: int, fileSize: int, isRequired: bool)

  function MappingFlags(flags: bv32): bv64 {
    1 | 4 | (if flags & 2 == 2 then 2 else 0) | if flags & 1 != 1 then 0x8000_0000_0000_0000 else 0
  }

  lemma MappingBits(flags: bv32)
    ensures var w := MappingFlags(flags);
      && w & !0x8000_0000_0000_0002 == 5 && (w & 2 != 0 <==> flags & 2 != 0)
      && (w & 0x8000_0000_0000_0000 != 0 <==> flags & 1 == 0)
  {}

  function AreaOf(e: ProgramHeaderEntry): ElfMemoryArea {
    ElfMemoryArea(MappingFlags(e.flags), e.Base(), e.vaddr, e.Limit(), e.offset, e.fileSize, true)
  }

  /** The area of a load entry, field by field. Its end is rounded up to a page, and is 0 if
      that leaves 64 bits. Of the flags, users always get the page, bit 1 is the write right and
      bit 63 denies execution. */
  predicate Describes(a: ElfMemoryArea, e: ProgramHeaderEntry) {
    && a.isRequired && a.memoryOffset == e.vaddr && a.fileOffset == e.offset && a.fileSize == e.fileSize
    && a.memoryBase % PAGE_SIZE == 0 && a.memoryBase <= e.vaddr < a.memoryBase + PAGE_SIZE
    && a.memoryLimit % PAGE_SIZE == 0
    && (var end := (e.vaddr + e.memorySize) % WORD_LIMIT;
        if end <= WORD_LIMIT - PAGE_SIZE then end <= a.memoryLimit < end + PAGE_SIZE else a.memoryLimit == 0)
    && a.mappingFlags & !0x8000_0000_0000_0002 == 5 && (a.mappingFlags & 2 != 0 <==> e.flags & 2 != 0)
    && (a.mappingFlags & 0x8000_0000_0000_0000 != 0 <==> e.flags & 1 == 0)
  }

  lemma AreaDescribes(e: ProgramHeaderEntry)
    ensures Describes(AreaOf(e), e)
  {
    MappingBits(e.flags);
    AlignFacts(e.vaddr);
    AlignFacts((e.vaddr + e.memorySize) % WORD_LIMIT);
    hide MappingFlags;
  }

  // --------------------------------------------------------- accepted headers

  /** The end of the last range before entry n. */
  function PrevEnd(entries: seq<ProgramHeaderEntry>, n: nat): nat
    requires n <= |entries|
  {
    if n == 0 then PAGE_SIZE
    else if entries[n - 1].kind == ELF_NULL then PrevEnd(entries, n - 1)
    else entries[n - 1].Limit()
  }

  predicate Passes(entries: seq<ProgramHeaderEntry>, i: nat)
    requires i < |entries|
  {
    entries[i].kind == ELF_NULL ||
      (entries[i].kind == ELF_LOAD && entries[i].Base() >= PrevEnd(entries, i) && entries[i].fileSize >= 0)
  }

  /** The validation loop. The array of areas starts uninitialised, and the slots of
      null entries stay so. */
  method ParseSegments(entries: seq<ProgramHeaderEntry>) returns (areas: array?<ElfMemoryArea>)
    ensures areas != null <==> forall i: nat :: i < |entries| ==> Passes(entries, i)
    ensures areas != null ==> fresh(areas) && areas.Length == |entries|
    ensures areas != null ==> forall i: nat :: i < |entries| ==>
      if entries[i].kind == ELF_NULL then !areas[i].isRequired
      else areas[i] == AreaOf(entries[i]) && Describes(areas[i], entries[i])
  {
    hide Describes;
    var result := new ElfMemoryArea[|entries|];
    var prevEnd := PAGE_SIZE;
    for i := 0 to |entries|
      invariant prevEnd == PrevEnd(entries, i)
      invariant forall j: nat :: j < i ==> Passes(entries, j)
      invariant forall j: nat :: j < i ==>
        if entries[j].kind == ELF_NULL then !result[j].isRequired else result[j] == AreaOf(entries[j])
    {
      if entries[i].kind == ELF_NULL {
        result[i] := result[i].(isRequired := false);
        continue;
      }
      if entries[i].kind != ELF_LOAD || AlignDown(entries[i].vaddr) < prevEnd || entries[i].fileSize < 0 {
        assert !Passes(entries, i);
        return null;
      }
      prevEnd := AlignUp((entries[i].vaddr + entries[i].memorySize) % WORD_LIMIT);
      var flags := 1 | 4;
      if entries[i].flags & 2 == 2 {
        flags := flags | 2;
      }
      if entries[i].flags & 1 != 1 {
        flags := flags | 0x8000_0000_0000_0000;
      }
      result[i] := ElfMemoryArea(flags, AlignDown(entries[i].vaddr), entries[i].vaddr, prevEnd,
                                 entries[i].offset, entries[i].fileSize, true);
    }
    forall i: nat | i < |entries| ensures Describes(AreaOf(entries[i]), entries[i]) { AreaDescribes(entries[i]); }
    areas := result;
  }

  /** What acceptance should mean: every range to load lies above page 0, and the
      ranges ascend without sharing a page. */
  ghost predicate AscendingLoads(entries: seq<ProgramHeaderEntry>) {
    && (forall i: nat :: i < |entries| && entries[i].kind != ELF_NULL ==>
      entries[i].kind == ELF_LOAD && entries[i].fileSize >= 0 && entries[i].Base() >= PAGE_SIZE)
    && (forall i: nat, j: nat :: i < j < |entries| && entries[i].kind != ELF_NULL && entries[j].kind != ELF_NULL ==>
      entries[i].vaddr + entries[i].memorySize <= entries[j].Base())
  }

  lemma AlignedBound(x: nat, y: nat)
    requires x <= WORD_LIMIT - PAGE_SIZE && y % PAGE_SIZE == 0
    ensures AlignUp(x) <= y <==> x <= y
  {
    AlignFacts(x);
  }

  lemma EntryFacts(e: ProgramHeaderEntry)
    requires e.NoWrap()
    ensures e.Base() <= e.vaddr && e.Base() <= e.Limit() && e.vaddr + e.memorySize <= e.Limit()
    ensures e.Base() % PAGE_SIZE == 0 && e.Limit() % PAGE_SIZE == 0 && e.Limit() == AlignUp(e.vaddr + e.memorySize)
  {
    AlignFacts(e.vaddr);
    AlignFacts(e.vaddr + e.memorySize);
    assert (e.vaddr + e.memorySize) % WORD_LIMIT == e.vaddr + e.memorySize;
  }

  /** The area of an accepted header covers its segment exactly when the end of the
      segment, rounded up to a page, still fits in 64 bits. */
  lemma CoversIffNoWrap(e: ProgramHeaderEntry)
    ensures e.Base() <= e.vaddr && e.vaddr + e.memorySize <= e.Limit() <==> e.NoWrap()
  {
    AlignFacts(e.vaddr);
    var sum := e.vaddr + e.memorySize;
    if e.NoWrap() {
      EntryFacts(e);
    } else if sum < WORD_LIMIT {
      assert (sum + PAGE_SIZE - 1) % WORD_LIMIT == sum + PAGE_SIZE - 1 - WORD_LIMIT;
      assert e.Limit() == 0;
    } else {
      var x := (sum % WORD_LIMIT + PAGE_SIZE - 1) % WORD_LIMIT;
      AlignFacts(x);
      assert e.Limit() <= x < WORD_LIMIT;
      assert e.Limit() % PAGE_SIZE == 0;
    }
  }

  /** An accepted header whose area is empty at address 0 although its segment is not. */
  lemma UncoveredExample()
    ensures var e := ProgramHeaderEntry(ELF_LOAD, 4, 0, 0x1000, 0, WORD_LIMIT - 0x1000);
      Passes([e], 0) && e.Limit() == 0 && AreaOf(e).memoryLimit < AreaOf(e).memoryBase <= e.vaddr
  {}

  /** An accepted header whose reservation wraps: the addresses from 0x2000 to 0x5000 end
      up on the free list twice. */
  lemma FreeTwiceExample()
    ensures var e := ProgramHeaderEntry(ELF_LOAD, 4, 0, 0x5000, 0, WORD_LIMIT - 0x3000);
      var size := (e.Limit() + WORD_LIMIT - e.Base()) % WORD_LIMIT;
      && Passes([e], 0) && e.Limit() == 0x2000 && CanCut([USER_RANGE], e.Base(), size, true)
      && e.Base() + size >= WORD_LIMIT && EndOf(e.Base(), size) == 0x2000
      && Doubled([USER_RANGE], 0, 0x5000, 0x2000) == [Area(0x1000, 0x4000), Area(0x2000, USER_LIMIT - 0x2000)]
  {
    var e := ProgramHeaderEntry(ELF_LOAD, 4, 0, 0x5000, 0, WORD_LIMIT - 0x3000);
    assert e.Limit() == 0x2000 && e.Base() == 0x5000;
    assert Spans([USER_RANGE], 0x5000, WORD_LIMIT - 0x3000, 0);
  }

  /** An accepted header, and a fresh allocator that reserves its area, for a segment that
      lies above the user half altogether. */
  lemma UpperSegmentExample()
    ensures var e := ProgramHeaderEntry(ELF_LOAD, 6, 0, 0x8001_0000_0000, 0, 0x1000);
      var a := AreaOf(e);
      && Passes([e], 0) && AscendingLoads([e]) && Loadable([a])
      && a.memoryBase == 0x8001_0000_0000 && a.memoryLimit == 0x8001_0000_1000
      && CanCut([USER_RANGE], a.memoryBase, a.memoryLimit - a.memoryBase, true)
  {
    var e := ProgramHeaderEntry(ELF_LOAD, 6, 0, 0x8001_0000_0000, 0, 0x1000);
    assert Spans([USER_RANGE], 0x8001_0000_0000, 0x1000, 0);
  }

  /** Two accepted headers in descending order: the wrapped end of the first lets any
      second one pass. */
  lemma WrappingIsNotAscending()
    ensures var a := ProgramHeaderEntry(ELF_LOAD, 4, 0, 0x5000, 0, WORD_LIMIT - 0x5000);
      var b := ProgramHeaderEntry(ELF_LOAD, 4, 0, 0x1000, 0, 0x1000);
      Passes([a, b], 0) && Passes([a, b], 1) && !AscendingLoads([a, b])
  {
    var a := ProgramHeaderEntry(ELF_LOAD, 4, 0, 0x5000, 0, WORD_LIMIT - 0x5000);
    var b := ProgramHeaderEntry(ELF_LOAD, 4, 0, 0x1000, 0, 0x1000);
    var es := [a, b];
    assert es[0].vaddr + es[0].memorySize > es[1].Base();
  }

  lemma {:induction false} EndsBelowPrevEnd(entries: seq<ProgramHeaderEntry>, i: nat, n: nat)
    requires i < n <= |entries| && entries[i].kind != ELF_NULL
    requires forall k: nat :: k < n ==> Passes(entries, k) && (entries[k].kind != ELF_NULL ==> entries[k].NoWrap())
    ensures PAGE_SIZE <= entries[i].Base() && entries[i].Limit() <= PrevEnd(entries, n)
  {
    PageOrMore(entries, i);
    if i < n - 1 {
      EndsBelowPrevEnd(entries, i, n - 1);
      assert Passes(entries, n - 1);
      if entries[n - 1].kind != ELF_NULL { EntryFacts(entries[n - 1]); }
    }
  }

  lemma {:induction false} PageOrMore(entries: seq<ProgramHeaderEntry>, n: nat)
    requires n <= |entries|
    requires forall k: nat :: k < n ==> Passes(entries, k) && (entries[k].kind != ELF_NULL ==> entries[k].NoWrap())
    ensures PrevEnd(entries, n) >= PAGE_SIZE
  {
    if n > 0 {
      PageOrMore(entries, n - 1);
      assert Passes(entries, n - 1);
      if entries[n - 1].kind != ELF_NULL { EntryFacts(entries[n - 1]); }
    }
  }

  /** PrevEnd is the first page or the limit of some earlier range. */
  lemma {:induction false} PrevEndIsSomeEnd(entries: seq<ProgramHeaderEntry>, n: nat)
    requires n <= |entries|
    ensures PrevEnd(entries, n) == PAGE_SIZE ||
      exists i: nat :: i < n && entries[i].kind != ELF_NULL && PrevEnd(entries, n) == entries[i].Limit()
  {
    if n > 0 && entries[n - 1].kind == ELF_NULL { PrevEndIsSomeEnd(entries, n - 1); }
  }

  /** While no segment wraps, the one-pass check accepts exactly the ascending,
      page-disjoint load segments above page 0. */
  lemma AcceptedIffAscending(entries: seq<ProgramHeaderEntry>)
    requires forall k: nat :: k < |entries| && entries[k].kind != ELF_NULL ==> entries[k].NoWrap()
    ensures (forall i: nat :: i < |entries| ==> Passes(entries, i)) <==> AscendingLoads(entries)
  {
    if forall i: nat :: i < |entries| ==> Passes(entries, i) {
      forall i: nat | i < |entries| && entries[i].kind != ELF_NULL
        ensures entries[i].kind == ELF_LOAD && entries[i].fileSize >= 0 && entries[i].Base() >= PAGE_SIZE
      {
        PageOrMore(entries, i);
        assert Passes(entries, i);
      }
      forall i: nat, j: nat | i < j < |entries| && entries[i].kind != ELF_NULL && entries[j].kind != ELF_NULL
        ensures entries[i].vaddr + entries[i].memorySize <= entries[j].Base()
      {
        EndsBelowPrevEnd(entries, i, j);
        assert Passes(entries, j);
        EntryFacts(entries[i]);
      }
    }
    if AscendingLoads(entries) {
      forall j: nat | j < |entries| ensures Passes(entries, j) {
        if entries[j].kind != ELF_NULL {
          PrevEndIsSomeEnd(entries, j);
          EntryFacts(entries[j]);
          if PrevEnd(entries, j) != PAGE_SIZE {
            var i: nat :| i < j && entries[i].kind != ELF_NULL && PrevEnd(entries, j) == entries[i].Limit();
            EntryFacts(entries[i]);
            AlignedBound(entries[i].vaddr + entries[i].memorySize, entries[j].Base());
          }
        }
      }
    }
  }

  // ------------------------------------------------------------------ loading

  /** The addresses of the first n areas. */
  ghost predicate InSegment(areas: seq<ElfMemoryArea>, n: nat, x: nat) {
    exists i: nat :: i < n && i < |areas| && areas[i].memoryBase <= x < areas[i].memoryLimit
  }

  ghost function Segments(areas: seq<ElfMemoryArea>, n: nat): iset<nat> {
    iset x: nat | InSegment(areas, n, x)
  }

  /** Ascending areas inside the range of the user allocator, as acceptance guarantees. That
      range goes on above the user half: it ends at 2^48, twice as far up. */
  ghost predicate Loadable(areas: seq<ElfMemoryArea>) {
    && (forall i: nat :: i < |areas| ==> PAGE_SIZE <= areas[i].memoryBase <= areas[i].memoryLimit < USER_LIMIT)
    && (forall i: nat, j: nat :: i < j < |areas| ==> areas[i].memoryLimit <= areas[j].memoryBase)
  }

  /** Accepted headers give loadable areas, if none is null, none wraps and all end
      below 2^48. */
  lemma AcceptedIsLoadable(entries: seq<ProgramHeaderEntry>, areas: seq<ElfMemoryArea>)
    requires |areas| == |entries| && forall i: nat :: i < |entries| ==>
      Passes(entries, i) && entries[i].kind != ELF_NULL && areas[i] == AreaOf(entries[i])
        && areas[i].memoryLimit < USER_LIMIT
    requires forall i: nat :: i < |entries| ==> entries[i].NoWrap()
    ensures Loadable(areas)
  {
    forall i: nat | i < |areas| ensures PAGE_SIZE <= areas[i].memoryBase <= areas[i].memoryLimit {
      EntryFacts(entries[i]);
      EndsBelowPrevEnd(entries, i, i + 1);
    }
    forall i: nat, j: nat | i < j < |areas| ensures areas[i].memoryLimit <= areas[j].memoryBase {
      EndsBelowPrevEnd(entries, i, j);
      assert Passes(entries, j);
    }
  }

  function Edge(areas: seq<ElfMemoryArea>, n: nat): nat
    requires n <= |areas|
  {
    if n == 0 then PAGE_SIZE else areas[n - 1].memoryLimit
  }

  /** Everything from `edge` up is one free area, the last. */
  ghost predicate OpenFrom(s: seq<Area>, edge: nat) {
    s != [] && s[|s| - 1].offset == edge && s[|s| - 1].End() == USER_LIMIT
  }

  /** `now` is `s` without the first n segments, all of which were free. */
  ghost predicate Without(s: seq<Area>, now: seq<Area>, areas: seq<ElfMemoryArea>, n: nat) {
    Segments(areas, n) <= Free(s) && Free(now) == Free(s) - Segments(areas, n)
  }

  /** Area n cannot be reserved: its two ends are not in one free area, or that must be split
      and there is no node. */
  ghost predicate StuckAt(s: seq<Area>, now: seq<Area>, areas: seq<ElfMemoryArea>, nodes: seq<bool>, n: nat) {
    && n < |areas| == |nodes| && Without(s, now, areas, n) && areas[n].memoryBase <= areas[n].memoryLimit
    && !CanCut(now, areas[n].memoryBase, areas[n].memoryLimit - areas[n].memoryBase, nodes[n])
  }

  lemma NoSegments(s: seq<Area>, areas: seq<ElfMemoryArea>)
    ensures Without(s, s, areas, 0)
  {
    assert Segments(areas, 0) == iset{};
  }

  lemma OneLess(s: seq<Area>, before: seq<Area>, now: seq<Area>, areas: seq<ElfMemoryArea>, n: nat)
    requires n < |areas| && areas[n].memoryBase <= areas[n].memoryLimit && Without(s, before, areas, n)
    requires var r := Range(Area(areas[n].memoryBase, areas[n].memoryLimit - areas[n].memoryBase));
      r <= Free(before) && Free(now) == Free(before) - r
    ensures Without(s, now, areas, n + 1)
  {
    var a := Area(areas[n].memoryBase, areas[n].memoryLimit - areas[n].memoryBase);
    forall x: nat ensures x in Segments(areas, n + 1) <==> x in Segments(areas, n) || x in Range(a) {
      assert a.Has(x) <==> areas[n].memoryBase <= x < areas[n].memoryLimit;
    }
    assert Segments(areas, n + 1) == Segments(areas, n) + Range(a);
  }

  lemma OpenSpans(s: seq<Area>, edge: nat, addr: nat, size: nat)
    requires OpenFrom(s, edge) && edge <= addr && addr + size < USER_LIMIT
    ensures Spans(s, addr, size, |s| - 1)
  {}

  lemma OpenAfterCut(s: seq<Area>, edge: nat, addr: nat, size: nat, k: nat)
    requires Ordered(s) && OpenFrom(s, edge) && edge <= addr && addr + size < USER_LIMIT && Spans(s, addr, size, k)
    ensures OpenFrom(CutOut(s, k, addr, size), addr + size)
  {
    OneAreaHolds(s, addr, k, |s| - 1);
  }

  /** Whether step i of the loop succeeds: the pages can be mapped, and a node is
      at hand unless the area starts right where the last one ended. */
  predicate StepSucceeds(areas: seq<ElfMemoryArea>, nodes: seq<bool>, mapped: seq<bool>, i: nat)
    requires |nodes| == |areas| == |mapped| && i < |areas|
  {
    mapped[i] && (nodes[i] || areas[i].memoryBase == Edge(areas, i))
  }

  /** Where the loop stands after n steps. */
  ghost predicate Reached(s: seq<Area>, now: seq<Area>, areas: seq<ElfMemoryArea>, nodes: seq<bool>, mapped: seq<bool>,
      n: nat)
    requires |nodes| == |areas| == |mapped| && n <= |areas|
  {
    && Without(s, now, areas, n)
    && (Loadable(areas) && OpenFrom(s, PAGE_SIZE) ==>
      OpenFrom(now, Edge(areas, n)) && forall j: nat :: j < n ==> StepSucceeds(areas, nodes, mapped, j))
  }

  lemma ReachedStart(s: seq<Area>, areas: seq<ElfMemoryArea>, nodes: seq<bool>, mapped: seq<bool>)
    requires |nodes| == |areas| == |mapped|
    ensures Reached(s, s, areas, nodes, mapped, 0)
  {
    NoSegments(s, areas);
  }

  lemma ReachedEnd(s: seq<Area>, now: seq<Area>, areas: seq<ElfMemoryArea>, nodes: seq<bool>, mapped: seq<bool>)
    requires |nodes| == |areas| == |mapped| && Reached(s, now, areas, nodes, mapped, |areas|)
    ensures Without(s, now, areas, |areas|)
    ensures Loadable(areas) && OpenFrom(s, PAGE_SIZE) ==> AllSucceed(areas, nodes, mapped)
  {}

  ghost predicate AllSucceed(areas: seq<ElfMemoryArea>, nodes: seq<bool>, mapped: seq<bool>)
    requires |nodes| == |areas| == |mapped|
  {
    forall i: nat :: i < |areas| ==> StepSucceeds(areas, nodes, mapped, i)
  }

  /** Step i goes on when the range can be cut out and mapped; when it does not go
      on, some area of a loadable image was out of resources. */
  lemma ReachNext(s: seq<Area>, before: seq<Area>, areas: seq<ElfMemoryArea>, nodes: seq<bool>, mapped: seq<bool>,
      i: nat)
    requires |nodes| == |areas| == |mapped| && i < |areas| && areas[i].memoryBase <= areas[i].memoryLimit
    requires Ordered(before) && Reached(s, before, areas, nodes, mapped, i)
    ensures var base := areas[i].memoryBase; var size := areas[i].memoryLimit - base; var r := Range(Area(base, size));
      forall now :: (CanCut(before, base, size, nodes[i]) && mapped[i] && CutSomewhere(before, base, size, now)
                     && r <= Free(before) && Free(now) == Free(before) - r)
        ==> Reached(s, now, areas, nodes, mapped, i + 1)
    ensures !CanCut(before, areas[i].memoryBase, areas[i].memoryLimit - areas[i].memoryBase, nodes[i]) || !mapped[i] ==>
      !(Loadable(areas) && OpenFrom(s, PAGE_SIZE) && AllSucceed(areas, nodes, mapped))
  {
    hide Free, Range, Ordered, OpenFrom, CanCut, CutSomewhere, Loadable, Without, StepSucceeds;
    var base := areas[i].memoryBase;
    var size := areas[i].memoryLimit - base;
    var r := Range(Area(base, size));
    var easy := Loadable(areas) && OpenFrom(s, PAGE_SIZE);
    if easy { NextOpen(areas, before, i, nodes, mapped); }
    forall now | CanCut(before, base, size, nodes[i]) && mapped[i] && CutSomewhere(before, base, size, now)
      && r <= Free(before) && Free(now) == Free(before) - r
      ensures Reached(s, now, areas, nodes, mapped, i + 1)
    {
      OneLess(s, before, now, areas, i);
      if easy { AfterStep(areas, before, now, i); }
    }
  }

  lemma NextOpen(areas: seq<ElfMemoryArea>, s: seq<Area>, i: nat, nodes: seq<bool>, mapped: seq<bool>)
    requires Ordered(s) && Loadable(areas) && i < |areas| == |nodes| == |mapped| && OpenFrom(s, Edge(areas, i))
    ensures var base := areas[i].memoryBase; var size := areas[i].memoryLimit - base;
      CanCut(s, base, size, nodes[i]) && mapped[i] <==> StepSucceeds(areas, nodes, mapped, i)
  {
    var base, size := areas[i].memoryBase, areas[i].memoryLimit - areas[i].memoryBase;
    OpenSpans(s, Edge(areas, i), base, size);
    if k: nat :| Spans(s, base, size, k) && (nodes[i] || base == s[k].offset) { OneAreaHolds(s, base, k, |s| - 1); }
  }

  lemma AfterStep(areas: seq<ElfMemoryArea>, s: seq<Area>, s': seq<Area>, i: nat)
    requires Ordered(s) && Loadable(areas) && i < |areas| && OpenFrom(s, Edge(areas, i))
    requires CutSomewhere(s, areas[i].memoryBase, areas[i].memoryLimit - areas[i].memoryBase, s')
    ensures OpenFrom(s', Edge(areas, i + 1))
  {
    var base, size := areas[i].memoryBase, areas[i].memoryLimit - areas[i].memoryBase;
    var k: nat :| Spans(s, base, size, k) && s' == CutOut(s, k, base, size);
    OpenAfterCut(s, Edge(areas, i), base, size, k);
  }

  /** Unless one of them is empty, the range and each segment share no address. */
  ghost predicate Apart(areas: seq<ElfMemoryArea>, start: nat, size: nat) {
    forall i: nat :: i < |areas| && areas[i].memoryBase < areas[i].memoryLimit && size > 0 ==>
      areas[i].memoryLimit <= start || start + size <= areas[i].memoryBase
  }

  lemma ArgumentsApart(areas: seq<ElfMemoryArea>, start: nat, size: nat)
    requires Range(Area(start, size)) !! Segments(areas, |areas|)
    ensures Apart(areas, start, size)
  {
    forall i: nat | i < |areas| && areas[i].memoryBase < areas[i].memoryLimit && size > 0
      ensures areas[i].memoryLimit <= start || start + size <= areas[i].memoryBase
    {
      var x := if start < areas[i].memoryBase then areas[i].memoryBase else start;
      assert x < areas[i].memoryLimit ==> InSegment(areas, |areas|, x);
      assert x !in Segments(areas, |areas|) || x !in Range(Area(start, size));
    }
  }
}
