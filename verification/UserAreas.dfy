/**
 A process's virtual address allocator: a linked list of free areas, split by
 `alloc` and `reserve` and duplicated at fork. Only `next` is ever followed, so
 only `next` is constrained; whether the heap could supply a node is a parameter.
 */
module UserAreas {
  import opened Basics
  import opened FreeList

  const USER_START: nat := 0x1000
  const USER_LIMIT: nat := 0x1000000000000
  const USER_RANGE: Area := Area(USER_START, USER_LIMIT - USER_START)

  class UserVirtualMemoryArea {
    var prev: UserVirtualMemoryArea?
    var next: UserVirtualMemoryArea?
    var start: nat
    var size: nat

    constructor (start: nat, size: nat)
      ensures this.start == start && this.size == size && prev == null && next == null
    {
      this.start, this.size, prev, next := start, size, null, null;
    }

    /** Copies the range and leaves both links as they come. */
    constructor CopyOf(area: UserVirtualMemoryArea)
      ensures start == area.start && size == area.size
    {
      start, size := area.start, area.size;
    }

    predicate In(addr: nat)
      reads this
    {
      start <= addr < start + size
    }
  }

  ghost function Contents(nodes: seq<UserVirtualMemoryArea>): (s: seq<Area>)
    reads nodes
    ensures |s| == |nodes|
    ensures forall i: nat :: i < |s| ==> s[i] == Area(nodes[i].start, nodes[i].size)
  {
    if nodes == [] then [] else [Area(nodes[0].start, nodes[0].size)] + Contents(nodes[1..])
  }

  ghost function At(nodes: seq<UserVirtualMemoryArea>, i: nat): UserVirtualMemoryArea? {
    if i < |nodes| then nodes[i] else null
  }

  lemma InsertMoves(nodes: seq<UserVirtualMemoryArea>, k: nat, area: UserVirtualMemoryArea)
    requires k < |nodes|
    ensures var r := nodes[..k + 1] + [area] + nodes[k + 1..];
      forall j: nat {:trigger At(r, j)} ::
        At(r, j) == if j <= k then At(nodes, j) else if j == k + 1 then area else At(nodes, j - 1)
  {}

  lemma OnlyAt(nodes: seq<UserVirtualMemoryArea>, i: nat)
    requires Distinct(nodes)
    ensures i < |nodes| ==> forall j: nat :: j < |nodes| && j != i ==> nodes[j] != nodes[i]
  {}

  lemma InsertKeepsDistinct(nodes: seq<UserVirtualMemoryArea>, i: nat, area: UserVirtualMemoryArea)
    requires Distinct(nodes) && i <= |nodes| && area !in nodes
    ensures Distinct(nodes[..i] + [area] + nodes[i..])
  {}

  // ------------------------------------------------------- lists of free areas

  /** Non-empty areas in ascending order; neighbours may touch. */
  ghost predicate Ordered(s: seq<Area>) {
    && (forall i: nat :: i < |s| ==> s[i].size > 0)
    && (forall i: nat, j: nat :: i < j < |s| ==> s[i].End() <= s[j].offset)
  }

  /** What is left of an area without [start, start + size). */
  function Remainder(a: Area, start: nat, size: nat): seq<Area>
    requires a.offset <= start && start + size <= a.End()
  {
    if start == a.offset then [Area(start + size, a.size - size)]
    else if start + size == a.End() then [Area(a.offset, start - a.offset)]
    else [Area(a.offset, start - a.offset), Area(start + size, a.End() - (start + size))]
  }

  function CutOut(s: seq<Area>, k: nat, start: nat, size: nat): seq<Area>
    requires k < |s| && s[k].offset <= start && start + size <= s[k].End()
  {
    s[..k] + Remainder(s[k], start, size) + s[k + 1..]
  }

  lemma EndsAreCutOut(s: seq<Area>, k: nat, start: nat, size: nat)
    requires k < |s| && s[k].offset <= start && start + size <= s[k].End()
    ensures start == s[k].offset ==> CutOut(s, k, start, size) == s[k := Area(start + size, s[k].size - size)]
    ensures start != s[k].offset && start + size == s[k].End() ==>
      CutOut(s, k, start, size) == s[k := Area(s[k].offset, start - s[k].offset)]
  {}

  lemma SplitIsCutOut(s: seq<Area>, k: nat, start: nat, size: nat)
    requires k < |s| && s[k].offset < start && start + size < s[k].End()
    ensures CutOut(s, k, start, size) ==
      (s[..k + 1] + [Area(start + size, s[k].End() - (start + size))] + s[k + 1..])
      [k := Area(s[k].offset, start - s[k].offset)]
  {}

  /** What a cut whose end wraps around to `to` leaves: the addresses from `to` up to
      `start` in two areas, instead of in none. */
  function Doubled(s: seq<Area>, k: nat, start: nat, to: nat): seq<Area>
    requires k < |s| && s[k].offset <= to < start < s[k].End()
  {
    s[..k] + [Area(s[k].offset, start - s[k].offset), Area(to, s[k].End() - to)] + s[k + 1..]
  }

  lemma SplitIsDoubled(s: seq<Area>, k: nat, start: nat, to: nat)
    requires k < |s| && s[k].offset <= to < start < s[k].End()
    ensures Doubled(s, k, start, to) ==
      (s[..k + 1] + [Area(to, s[k].End() - to)] + s[k + 1..])[k := Area(s[k].offset, start - s[k].offset)]
  {}

  lemma DoubledIsNotOrdered(s: seq<Area>, k: nat, start: nat, to: nat)
    requires k < |s| && s[k].offset <= to < start < s[k].End()
    ensures !Ordered(Doubled(s, k, start, to))
  {
    var d := Doubled(s, k, start, to);
    assert d[k].End() == start && d[k + 1].offset == to;
  }

  lemma RemainderIsRest(a: Area, start: nat, size: nat)
    requires a.offset <= start && start + size <= a.End() && (start == a.offset ==> size < a.size)
    ensures var m := Remainder(a, start, size);
      Ordered(m) && AllStartFrom(m, a.offset) && AllEndBy(m, a.End()) && m != []
      && Free(m) == Range(a) - Range(Area(start, size)) && Range(Area(start, size)) <= Range(a)
  {
    var m := Remainder(a, start, size);
    if |m| == 1 {
      FreeOfOne(m[0]);
    } else {
      assert m == [m[0]] + [m[1]];
      FreeOfConcat([m[0]], [m[1]]);
      FreeOfOne(m[0]);
      FreeOfOne(m[1]);
    }
  }

  lemma Cut(s: seq<Area>, k: nat)
    requires Ordered(s) && k < |s|
    ensures s == s[..k] + [s[k]] + s[k + 1..]
    ensures Ordered(s[..k]) && Ordered(s[k + 1..])
    ensures AllEndBy(s[..k], s[k].offset) && AllStartFrom(s[k + 1..], s[k].End())
  {}

  lemma Join(l: seq<Area>, m: seq<Area>, r: seq<Area>, lo: nat, hi: nat)
    requires Ordered(l) && Ordered(m) && Ordered(r) && lo <= hi
    requires AllEndBy(l, lo) && AllStartFrom(m, lo) && AllEndBy(m, hi) && AllStartFrom(r, hi)
    ensures Ordered(l + m + r)
  {
    var s := l + m + r;
    forall i: nat, j: nat | i < j < |s| ensures s[i].End() <= s[j].offset {
      assert s[i] == if i < |l| then l[i] else if i < |l| + |m| then m[i - |l|] else r[i - |l| - |m|];
      assert s[j] == if j < |l| then l[j] else if j < |l| + |m| then m[j - |l|] else r[j - |l| - |m|];
    }
  }

  lemma OutsideIsElsewhere(l: seq<Area>, a: Area, r: seq<Area>)
    requires AllEndBy(l, a.offset) && AllStartFrom(r, a.End())
    ensures Free(l) !! Range(a) && Free(r) !! Range(a)
  {}

  /** Cutting a range out of one area removes exactly that range, keeps the order,
      and leaves no area empty. */
  lemma CutOutKeepsOrder(s: seq<Area>, k: nat, start: nat, size: nat)
    requires Ordered(s) && k < |s| && s[k].offset <= start && start + size <= s[k].End()
    requires start == s[k].offset ==> size < s[k].size
    ensures Ordered(CutOut(s, k, start, size)) && CutOut(s, k, start, size) != []
    ensures Free(CutOut(s, k, start, size)) == Free(s) - Range(Area(start, size))
    ensures Range(Area(start, size)) <= Free(s)
  {
    hide Ordered, Free, Range, AllEndBy, AllStartFrom, Remainder;
    var l, a, r := s[..k], s[k], s[k + 1..];
    Cut(s, k);
    FreeOfThree(l, a, r);
    RemainderIsRest(a, start, size);
    OutsideIsElsewhere(l, a, r);
    var m := Remainder(a, start, size);
    Join(l, m, r, a.offset, a.End());
    FreeOfConcat(l + m, r);
    FreeOfConcat(l, m);
  }

  /** Area k is the smallest that is strictly larger, the earliest among equals. */
  ghost predicate StrictBestFit(s: seq<Area>, size: nat, k: nat) {
    && k < |s| && s[k].size > size
    && (forall j: nat :: j < |s| && s[j].size > size ==> s[k].size <= s[j].size)
    && (forall j: nat :: j < k && s[j].size > size ==> s[k].size < s[j].size)
  }

  /** Where a range ends, in 64-bit arithmetic. */
  function EndOf(addr: nat, size: nat): nat { (addr + size) % WORD_LIMIT }

  /** Area k holds both ends of a range. */
  ghost predicate Spans(s: seq<Area>, addr: nat, size: nat, k: nat) {
    k < |s| && s[k].Has(addr) && s[k].Has(EndOf(addr, size))
  }

  ghost predicate CutSomewhere(s: seq<Area>, addr: nat, size: nat, s': seq<Area>) {
    addr + size < WORD_LIMIT && exists k: nat :: Spans(s, addr, size, k) && s' == CutOut(s, k, addr, size)
  }

  /** What happens when the end of the range wraps around into the same area. */
  ghost predicate DoubledSomewhere(s: seq<Area>, addr: nat, size: nat, s': seq<Area>) {
    exists k: nat :: Spans(s, addr, size, k) && EndOf(addr, size) < addr && s' == Doubled(s, k, addr, EndOf(addr, size))
  }

  /** One area holds both ends, and a node is at hand if the area must be split. */
  ghost predicate CanCut(s: seq<Area>, addr: nat, size: nat, available: bool) {
    exists k: nat :: Spans(s, addr, size, k) && (available || addr == s[k].offset)
  }

  lemma OneAreaHolds(s: seq<Area>, x: nat, k: nat, j: nat)
    requires Ordered(s) && k < |s| && j < |s| && s[k].Has(x) && s[j].Has(x)
    ensures k == j
  {}

  /** A request for exactly the one area of a fresh list: it is free and is not used. */
  lemma ExactFitExample()
    ensures var s := [USER_RANGE]; var size := USER_RANGE.size;
      Ordered(s) && HasRun(s, size) && forall k: nat :: !StrictBestFit(s, size, k)
  {
    var s := [USER_RANGE];
    FreeOfOne(s[0]);
    assert Range(USER_RANGE) <= Free(s);
  }

  class UserVirtualAllocator {
    var head: UserVirtualMemoryArea?
    var brkMin: nat
    var brk: nat
    ghost var nodes: seq<UserVirtualMemoryArea>
    ghost var repr: set<UserVirtualMemoryArea>

    /** The list in both directions; what the first node says comes before it is left open,
        as copying does not set it. */
    ghost predicate Linked()
      reads this, nodes
    {
      && Distinct(nodes) && (forall i: nat :: i < |nodes| ==> nodes[i] in repr)
      && head == At(nodes, 0)
      && (forall i: nat {:trigger nodes[i].next} :: i < |nodes| ==> nodes[i].next == At(nodes, i + 1))
      && (forall i: nat {:trigger nodes[i].prev} :: 0 < i < |nodes| ==> nodes[i].prev == nodes[i - 1])
    }

    ghost function Areas(): seq<Area>
      reads this, nodes
    {
      Contents(nodes)
    }

    /** The list is never empty and neither is any area on it. */
    ghost predicate Valid()
      reads this, nodes
    {
      Linked() && Ordered(Areas()) && nodes != [] && Free(Areas()) <= Range(USER_RANGE)
    }

    lemma ListIsOrdered()
      requires Valid()
      ensures Ordered(Areas()) && nodes != []
    {}

    lemma InRange()
      requires Valid()
      ensures Free(Areas()) <= Range(USER_RANGE)
    {}

    twostate lemma Same()
      requires old(Linked()) && unchanged(this) && unchanged(repr)
      ensures Linked()
    {}

    lemma LinksAt(i: nat)
      requires Linked()
      ensures head == if nodes == [] then null else nodes[0]
      ensures i < |nodes| ==> nodes[i].next == (if i == |nodes| - 1 then null else nodes[i + 1]) && nodes[i] in repr
    {}

    /** The fresh allocator of `newUserVirtualAllocator`. */
    constructor ()
      ensures Valid() && fresh(repr)
      ensures Areas() == [USER_RANGE]
    {
      var area := new UserVirtualMemoryArea(USER_START, USER_LIMIT - USER_START);
      head, nodes, repr := area, [area], {area};
      new;
      FreeOfOne(USER_RANGE);
    }

    /** An allocator with no list yet. */
    constructor Empty()
      ensures head == null && nodes == [] && repr == {}
    {
      head, nodes, repr := null, [], {};
    }

    method FindBestFit(size: nat) returns (result: UserVirtualMemoryArea?, ghost k: nat)
      requires Linked()
      ensures result != null ==> k < |nodes| && nodes[k] == result && StrictBestFit(Areas(), size, k)
      ensures result == null ==> forall j: nat :: j < |nodes| ==> Areas()[j].size <= size
    {
      hide Contents, Distinct, Linked;
      ghost var s := Areas();
      var current := head;
      LinksAt(0);
      result := null;
      ghost var i := 0;
      k := 0;
      while current != null
        invariant i <= |nodes| && current == if i == |nodes| then null else nodes[i]
        invariant result == null ==> forall j: nat :: j < i ==> s[j].size <= size
        invariant result != null ==> k < i && nodes[k] == result && StrictBestFit(s[..i], size, k)
        decreases |nodes| - i
      {
        LinksAt(i);
        if current.size > size {
          if result == null || result.size > current.size {
            result, k := current, i;
          }
        }
        current := current.next;
        i := i + 1;
      }
      assert s[..i] == s;
    }

    method Resize(area: UserVirtualMemoryArea, start: nat, size: nat, ghost k: nat)
      requires Linked() && k < |nodes| && nodes[k] == area
      modifies area`start, area`size
      ensures Linked() && Areas() == old(Areas())[k := Area(start, size)]
    {
      hide Contents, Distinct;
      OnlyAt(nodes, k);
      area.start := start;
      area.size := size;
    }

    /** The split arm of `CutFrom`. */
    method Split(area: UserVirtualMemoryArea, start: nat, to: nat, ghost k: nat)
      requires Linked() && k < |nodes| && nodes[k] == area
      requires area.start < start < area.start + area.size && to < area.start + area.size
      modifies `nodes, `repr, repr
      ensures Linked() && fresh(repr - old(repr)) && old(repr) <= repr && head == old(head)
      ensures var s := old(Areas());
        Areas() == (s[..k + 1] + [Area(to, s[k].End() - to)] + s[k + 1..])[k := Area(s[k].offset, start - s[k].offset)]
    {
      hide Contents, Distinct, Linked;
      LinksAt(k);
      ghost var s := Areas();
      var area2 := new UserVirtualMemoryArea(to, area.start + area.size - to);
      label Allocated:
      assert Areas() == s;
      LinkAfter(area, area2, k);
      AreasAfterLink@Allocated(area2, k);
      assert Areas() == s[..k + 1] + [Area(to, s[k].End() - to)] + s[k + 1..];
      Resize(area, area.start, start - area.start, k);
    }

    /** Takes [start, start + size) out of the area, in 64-bit arithmetic; false when the
        node a split needs cannot be had. */
    method CutFrom(area: UserVirtualMemoryArea, start: nat, size: nat, available: bool, ghost k: nat)
      returns (done: bool)
      requires Linked() && k < |nodes| && nodes[k] == area && size < WORD_LIMIT && area.start + area.size < WORD_LIMIT
      requires area.start <= start < area.start + area.size
      requires area.start <= EndOf(start, size) <= area.start + area.size
      modifies `nodes, `repr, repr
      ensures Linked() && fresh(repr - old(repr)) && old(repr) <= repr && head == old(head)
      ensures done <==> available || start == old(area.start) || EndOf(start, size) == old(area.start + area.size)
      ensures !done ==> Areas() == old(Areas())
      ensures done && start + size < WORD_LIMIT ==> Areas() == CutOut(old(Areas()), k, start, size)
      ensures done && start + size >= WORD_LIMIT ==> Areas() == Doubled(old(Areas()), k, start, EndOf(start, size))
    {
      hide Contents, Distinct, Linked, CutOut, Doubled;
      ghost var s := Areas();
      LinksAt(k);
      var to := EndOf(start, size);
      if start + size < WORD_LIMIT { EndsAreCutOut(s, k, start, size); }
      if start == area.start {
        Resize(area, area.start + size, area.size - size, k);
        return true;
      }
      if to == area.start + area.size {
        Resize(area, area.start, start - area.start, k);
        return true;
      }
      if !available {
        return false;
      }
      Split(area, start, to, k);
      if start + size < WORD_LIMIT { SplitIsCutOut(s, k, start, size); } else { SplitIsDoubled(s, k, start, to); }
      done := true;
    }

    twostate lemma AreasAfterLink(new area2: UserVirtualMemoryArea, k: nat)
      requires k < old(|nodes|) && nodes == old(nodes[..k + 1] + [area2] + nodes[k + 1..])
      requires forall j: nat :: j < old(|nodes|) ==>
        old(nodes)[j].start == old(nodes[j].start) && old(nodes)[j].size == old(nodes[j].size)
      ensures nodes[k] == old(nodes)[k]
      ensures Areas() == old(Areas()[..k + 1]) + [Area(area2.start, area2.size)] + old(Areas()[k + 1..])
    {
      hide Contents;
    }

    /** The link surgery of a split. */
    method LinkAfter(area: UserVirtualMemoryArea, area2: UserVirtualMemoryArea, ghost k: nat)
      requires Linked() && k < |nodes| && nodes[k] == area && area2 !in repr
      modifies `nodes, `repr, repr`next, repr`prev, area2`next, area2`prev
      ensures Linked() && nodes == old(nodes[..k + 1] + [area2] + nodes[k + 1..])
      ensures repr == old(repr) + {area2} && head == old(head) && nodes[k + 1] == area2
    {
      hide Distinct, At;
      OnlyAt(nodes, k);
      OnlyAt(nodes, k + 1);
      InsertKeepsDistinct(nodes, k + 1, area2);
      InsertMoves(nodes, k, area2);
      LinksAt(k);
      if k + 1 < |nodes| { LinksAt(k + 1); }
      if area.next != null {
        area.next.prev := area2;
      }
      area2.next := area.next;
      area.next := area2;
      area2.prev := area;
      ghost var was := nodes;
      nodes, repr := nodes[..k + 1] + [area2] + nodes[k + 1..], repr + {area2};
      forall j: nat | 0 < j < |nodes| ensures nodes[j].prev == nodes[j - 1] {
        assert j <= k ==> nodes[j] == was[j] && old(was[j].prev) == was[j - 1];
        assert j > k + 1 ==> nodes[j] == was[j - 1] && (j > k + 2 ==> old(was[j - 1].prev) == was[j - 2]);
      }
      forall j: nat | j < |nodes| ensures nodes[j] in repr && nodes[j].next == At(nodes, j + 1) {
        assert j <= k ==> nodes[j] == was[j] && old(was[j].next) == At(was, j + 1);
        assert j > k + 1 ==> nodes[j] == was[j - 1] && old(was[j - 1].next) == At(was, j);
        assert j == k + 1 ==> nodes[j] == area2 && area2.next == At(was, j);
      }
    }

    /** The start of `size` bytes taken from the smallest area strictly larger, or
        0. The area never runs out, so its node is never unlinked. */
    method Alloc(size: nat) returns (offset: nat)
      requires Valid()
      modifies this, repr
      ensures Valid() && repr == old(repr)
      ensures offset == 0 <==> forall j: nat :: j < old(|nodes|) ==> old(Areas())[j].size <= size
      ensures offset == 0 ==> Areas() == old(Areas())
      ensures offset != 0 ==> exists k: nat :: StrictBestFit(old(Areas()), size, k) && offset == old(Areas())[k].offset
      ensures offset != 0 ==> Range(Area(offset, size)) <= old(Free(Areas()))
      ensures offset != 0 ==> Free(Areas()) == old(Free(Areas())) - Range(Area(offset, size))
    {
      hide Contents, Distinct, Linked, Free, Range, Ordered, StrictBestFit;
      var area, k := FindBestFit(size);
      if area == null {
        return 0;
      }
      ghost var s := Areas();
      offset := area.start;
      StartIsUser(s, k);
      LinksAt(k);
      AtStrictFit(s, size, k);
      CutOutKeepsOrder(s, k, offset, size);
      Resize(area, area.start + size, area.size - size, k);
      assert Areas() == CutOut(s, k, offset, size);
    }

    lemma AtStrictFit(s: seq<Area>, size: nat, k: nat)
      requires StrictBestFit(s, size, k)
      ensures k < |s| && size < s[k].size
    {}

    lemma StartIsUser(s: seq<Area>, k: nat)
      requires Ordered(s) && k < |s| && Free(s) <= Range(USER_RANGE)
      ensures s[k].offset >= USER_START
    {
      Held(s, k, s[k].offset);
    }

    /** Takes [addr, addr + size) if one area holds both of its ends. When the end wraps
        around into the same area, the list ends up with addresses that are free twice. */
    method Reserve(addr: nat, size: nat, available: bool) returns (done: bool)
      requires Valid() && addr < WORD_LIMIT && size < WORD_LIMIT
      modifies this, repr
      ensures Linked() && fresh(repr - old(repr)) && old(repr) <= repr
      ensures done <==> CanCut(old(Areas()), addr, size, available)
      ensures !done ==> Areas() == old(Areas())
      ensures Valid() <==> !done || addr + size < WORD_LIMIT
      ensures done && addr + size < WORD_LIMIT ==>
        CutSomewhere(old(Areas()), addr, size, Areas()) && Range(Area(addr, size)) <= old(Free(Areas()))
        && Free(Areas()) == old(Free(Areas())) - Range(Area(addr, size))
      ensures done && addr + size >= WORD_LIMIT ==> DoubledSomewhere(old(Areas()), addr, size, Areas())
    {
      hide Contents, Distinct, Linked, Free, Range, Ordered, CutOut, Doubled;
      ghost var s := Areas();
      var current := head;
      ghost var k := 0;
      LinksAt(0);
      while current != null
        invariant unchanged(this) && unchanged(repr)
        invariant k <= |nodes| && current == if k == |nodes| then null else nodes[k]
        invariant forall j: nat :: j < k ==> !s[j].Has(addr)
        decreases |nodes| - k
      {
        Same();
        LinksAt(k);
        if current.In(addr) {
          OneHolder(s, addr, k);
          if current.In(EndOf(addr, size)) {
            assert Spans(s, addr, size, k);
            EndsBelowLimit(s, k);
            if addr + size < WORD_LIMIT {
              CutOutKeepsOrder(s, k, addr, size);
            } else {
              DoubledIsNotOrdered(s, k, addr, EndOf(addr, size));
            }
            done := CutFrom(current, addr, size, available, k);
            return;
          }
          return false;
        }
        current := current.next;
        k := k + 1;
      }
      Same();
      return false;
    }

    lemma EndsBelowLimit(s: seq<Area>, k: nat)
      requires Ordered(s) && k < |s| && Free(s) <= Range(USER_RANGE)
      ensures s[k].End() <= USER_LIMIT
    {
      Held(s, k, s[k].End() - 1);
    }

    lemma OneHolder(s: seq<Area>, addr: nat, k: nat)
      requires Ordered(s) && k < |s| && s[k].Has(addr)
      ensures forall j: nat :: j < |s| && s[j].Has(addr) ==> j == k
    {}

    /** The loop of `copy`: null when some node cannot be had. The list is never
        empty, so there is a last node to end the chain with. */
    method CopyNodes(available: nat) returns (curHead: UserVirtualMemoryArea?, ghost made: seq<UserVirtualMemoryArea>)
      requires Valid()
      ensures curHead == null <==> available < |nodes|
      ensures curHead != null ==> |made| == |nodes| && Duplicates(made, Areas()) && made[0] == curHead
      ensures curHead != null ==> made[|made| - 1].next == null
      ensures forall n :: n in made ==> fresh(n)
    {
      hide Contents, Free, Range, Ordered, Distinct, Linked, Duplicates;
      LinksAt(0);
      ghost var s := Areas();
      var cur := head;
      var curCopy: UserVirtualMemoryArea? := null;
      curHead := null;
      made := [];
      NoDuplicates(s);
      var supply := available;
      while cur != null
        invariant unchanged(this) && unchanged(repr)
        invariant |made| <= |nodes| && supply == available - |made|
          && cur == if |made| == |nodes| then null else nodes[|made|]
        invariant Duplicates(made, s) && forall n :: n in made ==> fresh(n)
        invariant curHead == (if made == [] then null else made[0])
          && curCopy == if made == [] then null else made[|made| - 1]
        decreases |nodes| - |made|
      {
        Same();
        LinksAt(|made|);
        if supply == 0 {
          return null, [];
        }
        supply := supply - 1;
        var next := new UserVirtualMemoryArea.CopyOf(cur);
        assert next.start == s[|made|].offset && next.size == s[|made|].size;
        assert next !in made;
        label Made:
        assert curCopy != null ==> curCopy in made;
        if curHead == null {
          curHead := next;
          curCopy := next;
        } else {
          curCopy.next := next;
          next.prev := curCopy;
          curCopy := next;
        }
        DuplicatesGrow@Made(made, next, s);
        made := made + [next];
        cur := cur.next;
      }
      assert curCopy in made;
      label Ended:
      curCopy.next := null;
      DuplicatesEnd@Ended(made, s);
    }

    /** A second allocator with the same free areas and break. */
    method Copy(available: nat) returns (copy: UserVirtualAllocator?)
      requires Valid()
      ensures copy == null <==> available < |nodes|
      ensures copy != null ==> fresh(copy) && copy.Valid() && fresh(copy.repr)
      ensures copy != null ==> copy.Areas() == Areas() && copy.brk == brk && copy.brkMin == brkMin
    {
      hide Contents, Free, Range, Ordered, Distinct, Linked, Duplicates;
      var allocator := new UserVirtualAllocator.Empty();
      var curHead, made := CopyNodes(available);
      if curHead == null {
        return null;
      }
      allocator.head := curHead;
      allocator.brk := brk;
      allocator.brkMin := brkMin;
      allocator.nodes := made;
      allocator.repr := set n | n in made;
      allocator.Adopted(Areas());
      copy := allocator;
    }

    lemma Adopted(s: seq<Area>)
      requires Duplicates(nodes, s) && |nodes| == |s| && nodes != [] && head == nodes[0]
        && nodes[|nodes| - 1].next == null
      requires repr == set n | n in nodes
      ensures Linked() && Areas() == s
    {
      hide Distinct, Contents;
    }
  }

  /** Duplicates of the first areas, chained in the same order. */
  ghost predicate Duplicates(made: seq<UserVirtualMemoryArea>, s: seq<Area>)
    reads made
  {
    && |made| <= |s| && Distinct(made)
    && (forall j: nat {:trigger made[j].start} {:trigger made[j].size} :: j < |made| ==>
      made[j].start == s[j].offset && made[j].size == s[j].size)
    && (forall j: nat {:trigger made[j].next} :: j < |made| - 1 ==> made[j].next == made[j + 1])
    && (forall j: nat {:trigger made[j].prev} :: 0 < j < |made| ==> made[j].prev == made[j - 1])
  }

  lemma NoDuplicates(s: seq<Area>)
    ensures Duplicates([], s)
  {}

  twostate lemma DuplicatesGrow(made: seq<UserVirtualMemoryArea>, new next: UserVirtualMemoryArea, new s: seq<Area>)
    requires old(Duplicates(made, s)) && |made| < |s| && next !in made
    requires next.start == s[|made|].offset && next.size == s[|made|].size
    requires made != [] ==> made[|made| - 1].next == next && next.prev == made[|made| - 1]
    requires forall n :: n in made ==> n.start == old(n.start) && n.size == old(n.size) && n.prev == old(n.prev)
    requires forall n :: n in made && n != made[|made| - 1] ==> n.next == old(n.next)
    ensures Duplicates(made + [next], s)
  {
    InsertKeepsDistinct(made, |made|, next);
    assert made[..|made|] + [next] + made[|made|..] == made + [next];
    OnlyLast(made);
    hide Distinct;
  }

  lemma OnlyLast(made: seq<UserVirtualMemoryArea>)
    requires Distinct(made)
    ensures forall j: nat :: j < |made| - 1 ==> made[j] != made[|made| - 1]
  {}

  twostate lemma DuplicatesEnd(made: seq<UserVirtualMemoryArea>, new s: seq<Area>)
    requires old(Duplicates(made, s)) && made != []
    requires forall n :: n in made ==> n.start == old(n.start) && n.size == old(n.size) && n.prev == old(n.prev)
    requires forall n :: n in made && n != made[|made| - 1] ==> n.next == old(n.next)
    ensures Duplicates(made, s)
  {
    OnlyLast(made);
    hide Distinct;
  }
}
