/**
 The slab heap. A pool is one page: 48 bytes of metadata and as many slots of one
 size as `maxCount` says, each with a 16-byte header; the free slots are chained
 through their headers. Pools of one size sit in buckets, by their number of free
 slots. One size class is modelled; the classes share nothing.
 */
module Slab {
  import opened Basics

  const METADATA: nat := 48
  const HEADER: nat := 16
  const SLUB_LIMIT: nat := 2000

  function MaxCount(objectSize: nat): nat {
    (PAGE_SIZE - 16) / (objectSize + METADATA)
  }

  /** Sizes are rounded up to 16 and stay below the limit for slabs. */
  predicate IsClass(objectSize: nat) {
    0 < objectSize < SLUB_LIMIT && objectSize % 16 == 0
  }

  /** `size` rounded up to a multiple of 16; its class has number size / 16. */
  function Rounded(size: nat): nat { (size + 15) / 16 * 16 }

  const CLASSES: nat := SLUB_LIMIT / 16

  /** Every small request has a class, and its number is a valid index. */
  lemma SmallRequestHasClass(size: nat)
    requires size > 0
    ensures Rounded(size) < SLUB_LIMIT <==> size <= SLUB_LIMIT - 16
    ensures Rounded(size) < SLUB_LIMIT ==>
      IsClass(Rounded(size)) && size <= Rounded(size) && Rounded(size) / 16 < CLASSES
  {}

  function SlotOffset(objectSize: nat, i: nat): nat {
    METADATA + (objectSize + HEADER) * i
  }

  // ---------------------------------------------------------------------- layout

  lemma MaxCountBounds(objectSize: nat)
    requires IsClass(objectSize)
    ensures 1 < MaxCount(objectSize)
    ensures (objectSize + METADATA) * MaxCount(objectSize) <= PAGE_SIZE - 16
    ensures PAGE_SIZE - 16 < (objectSize + METADATA) * (MaxCount(objectSize) + 1)
  {}

  lemma Times(a: nat, i: nat, j: nat)
    requires i <= j
    ensures a * i <= a * j && a * (i + 1) == a * i + a
  {}

  lemma Spread(a: nat, b: nat, n: nat)
    ensures (a + b) * n == a * n + b * n
  {}

  /** All slots of a class lie in the page, after the metadata, and none reaches into
      the next. */
  lemma SlotsFit(objectSize: nat, i: nat, j: nat)
    requires IsClass(objectSize) && i < MaxCount(objectSize)
    ensures METADATA <= SlotOffset(objectSize, i) && SlotOffset(objectSize, i) + HEADER + objectSize <= PAGE_SIZE
    ensures i < j ==> SlotOffset(objectSize, i) + HEADER + objectSize <= SlotOffset(objectSize, j)
  {
    hide MaxCount;
    MaxCountBounds(objectSize);
    FitsBelow(objectSize + HEADER, MaxCount(objectSize), i);
    if i < j { Times(objectSize + HEADER, i + 1, j); }
    Times(objectSize + HEADER, i, i);
  }

  /** No space is left between the slots, nor before the first. */
  lemma SlotsFollow(objectSize: nat, i: nat)
    ensures SlotOffset(objectSize, 0) == METADATA
    ensures SlotOffset(objectSize, i + 1) == SlotOffset(objectSize, i) + HEADER + objectSize
  {
    Times(objectSize + HEADER, i, i + 1);
  }

  lemma FitsBelow(w: nat, n: nat, i: nat)
    requires (w + (METADATA - HEADER)) * n <= PAGE_SIZE - 16 && i < n
    ensures METADATA + w * i + w <= PAGE_SIZE
  {
    Spread(w, METADATA - HEADER, n);
    Times(w, i + 1, n);
    Times(w, i, i);
  }

  /** Slots of different pages, or different slots of one, never share an address. */
  lemma AddressesDiffer(objectSize: nat, g: nat, i: nat, h: nat, j: nat)
    requires IsClass(objectSize) && i < MaxCount(objectSize) && j < MaxCount(objectSize)
    requires g % PAGE_SIZE == 0 && h % PAGE_SIZE == 0
    ensures g + SlotOffset(objectSize, i) == h + SlotOffset(objectSize, j) ==> g == h && i == j
  {
    hide SlotOffset, MaxCount;
    SlotsFit(objectSize, i, j);
    SlotsFit(objectSize, j, i);
    SameBase(g, SlotOffset(objectSize, i), h, SlotOffset(objectSize, j));
  }

  lemma SameBase(g: nat, a: nat, h: nat, b: nat)
    requires g % PAGE_SIZE == 0 && h % PAGE_SIZE == 0 && a < PAGE_SIZE && b < PAGE_SIZE
    ensures g + a == h + b ==> g == h && a == b
  {}

  lemma SlotsDiffer(objectSize: nat, i: nat, j: nat)
    requires IsClass(objectSize) && i < MaxCount(objectSize) && j < MaxCount(objectSize)
    ensures SlotOffset(objectSize, i) == SlotOffset(objectSize, j) <==> i == j
  {
    SlotsFit(objectSize, i, j);
    SlotsFit(objectSize, j, i);
  }

  /** Live slots by page, and the addresses they stand for. */
  ghost predicate HasAddress(objectSize: nat, live: map<nat, set<nat>>, x: nat) {
    exists g: nat, i: nat :: g in live && i in live[g] && x == g + SlotOffset(objectSize, i)
  }

  ghost function Addresses(objectSize: nat, live: map<nat, set<nat>>): iset<nat> {
    iset x: nat | HasAddress(objectSize, live, x)
  }

  ghost predicate LiveSlots(objectSize: nat, live: map<nat, set<nat>>) {
    forall g: nat, i: nat :: g in live && i in live[g] ==> g % PAGE_SIZE == 0 && i < MaxCount(objectSize)
  }

  /** No byte of one live object, header included, belongs to another. */
  lemma ObjectsApart(objectSize: nat, live: map<nat, set<nat>>, x: nat, y: nat)
    requires IsClass(objectSize) && LiveSlots(objectSize, live) && x < y
    requires x in Addresses(objectSize, live) && y in Addresses(objectSize, live)
    ensures x + HEADER + objectSize <= y
  {
    hide MaxCount, SlotOffset, IsClass;
    var g: nat, i: nat :| g in live && i in live[g] && x == g + SlotOffset(objectSize, i);
    var h: nat, j: nat :| h in live && j in live[h] && y == h + SlotOffset(objectSize, j);
    SlotsFit(objectSize, i, j);
    SlotsFit(objectSize, j, i);
    PagesApart(g, h);
    if g == h {
      assert i != j;
    }
  }

  lemma PagesApart(g: nat, h: nat)
    requires g % PAGE_SIZE == 0 && h % PAGE_SIZE == 0
    ensures g < h ==> g + PAGE_SIZE <= h
    ensures h < g ==> h + PAGE_SIZE <= g
  {}

  lemma OneMore(objectSize: nat, live: map<nat, set<nat>>, g: nat, i: nat)
    requires IsClass(objectSize) && LiveSlots(objectSize, live)
    requires g in live && g % PAGE_SIZE == 0 && i < MaxCount(objectSize) && i !in live[g]
    ensures var a := g + SlotOffset(objectSize, i); var s := Addresses(objectSize, live);
      a !in s && Addresses(objectSize, live[g := live[g] + {i}]) == s + iset{a}
  {
    hide MaxCount, SlotOffset, IsClass;
    var a, more := g + SlotOffset(objectSize, i), live[g := live[g] + {i}];
    forall h: nat, j: nat | h in live && j in live[h] ensures h + SlotOffset(objectSize, j) != a {
      AddressesDiffer(objectSize, g, i, h, j);
    }
    forall x: nat ensures HasAddress(objectSize, more, x) <==> x == a || HasAddress(objectSize, live, x) {
      if h: nat, j: nat :| h in live && j in live[h] && x == h + SlotOffset(objectSize, j) { assert j in more[h]; }
      if x == a { assert i in more[g]; }
    }
  }

  lemma OneLess(objectSize: nat, live: map<nat, set<nat>>, g: nat, i: nat)
    requires IsClass(objectSize) && LiveSlots(objectSize, live) && g in live && i in live[g]
    ensures var a := g + SlotOffset(objectSize, i); var s := Addresses(objectSize, live);
      && a in s && Addresses(objectSize, live[g := live[g] - {i}]) == s - iset{a}
      && (live[g] == {i} ==> Addresses(objectSize, live - {g}) == s - iset{a})
  {
    hide MaxCount, SlotOffset, IsClass;
    var a, less := g + SlotOffset(objectSize, i), live[g := live[g] - {i}];
    forall x: nat ensures HasAddress(objectSize, less, x) <==> x != a && HasAddress(objectSize, live, x) {
      if h: nat, j: nat :| h in live && j in live[h] && x == h + SlotOffset(objectSize, j) {
        AddressesDiffer(objectSize, g, i, h, j);
        assert x != a ==> j in less[h];
      }
      if h: nat, j: nat :| h in less && j in less[h] && x == h + SlotOffset(objectSize, j) {
        AddressesDiffer(objectSize, g, i, h, j);
        assert j in live[h];
      }
    }
    assert HasAddress(objectSize, live, a);
    if live[g] == {i} { EmptyPage(objectSize, less, g); assert less - {g} == live - {g}; }
  }

  lemma EmptyPage(objectSize: nat, live: map<nat, set<nat>>, g: nat)
    requires g in live && live[g] == {}
    ensures Addresses(objectSize, live - {g}) == Addresses(objectSize, live)
  {
    forall x: nat ensures HasAddress(objectSize, live - {g}, x) <==> HasAddress(objectSize, live, x) {
      if h: nat, j: nat :| h in live && j in live[h] && x == h + SlotOffset(objectSize, j) {
        assert j in (live - {g})[h];
      }
      if h: nat, j: nat :| h in live - {g} && j in (live - {g})[h] && x == h + SlotOffset(objectSize, j) {
        assert j in live[h];
      }
    }
  }

  // ----------------------------------------------------------------------- chains

  ghost predicate DistinctBelow(s: seq<nat>, n: nat) {
    Distinct(s) && forall k: nat :: k < |s| ==> s[k] < n
  }

  /** At most n different numbers lie below n; if one is missing, fewer. */
  lemma {:induction false} Pigeonhole(s: seq<nat>, n: nat)
    requires DistinctBelow(s, n)
    ensures |s| <= n
  {
    if s != [] {
      assert s[0] < n;
      if k: nat :| k < |s| && s[k] + 1 == n {
        var t := s[..k] + s[k + 1..];
        assert forall j: nat :: j < |t| ==> t[j] == if j < k then s[j] else s[j + 1];
        Pigeonhole(t, n - 1);
      } else {
        Pigeonhole(s, n - 1);
      }
    }
  }

  lemma RoomForOne(s: seq<nat>, n: nat, i: nat)
    requires DistinctBelow(s, n) && i < n && i !in s
    ensures DistinctBelow([i] + s, n) && |s| < n
  {
    var t := [i] + s;
    assert forall k: nat :: 0 < k < |t| ==> t[k] == s[k - 1];
    Pigeonhole(t, n);
  }

  lemma {:induction false} AllThere(s: seq<nat>, n: nat)
    requires DistinctBelow(s, n)
    requires forall i: nat :: i < n ==> i in s
    ensures |s| == n
  {
    Pigeonhole(s, n);
    AtLeast(s, n);
  }

  lemma {:induction false} AtLeast(s: seq<nat>, n: nat)
    requires forall i: nat :: i < n ==> i in s
    ensures |s| >= n
    decreases n
  {
    if n > 0 {
      var last: nat := n - 1;
      assert last in s;
      var k: nat :| k < |s| && s[k] == last;
      var t := s[..k] + s[k + 1..];
      forall i: nat | i < n - 1 ensures i in t {
        assert i in s;
        var j: nat :| j < |s| && s[j] == i;
        assert t[if j < k then j else j - 1] == i;
      }
      AtLeast(t, n - 1);
    }
  }

  function Upto(n: nat): (s: seq<nat>)
    ensures |s| == n && forall k: nat :: k < n ==> s[k] == k
  {
    if n == 0 then [] else Upto(n - 1) + [n - 1]
  }

  class SmallObjectPool {
    const page: nat
    const objectSize: nat
    var first: nat
    var objectsCount: nat
    var prev: SmallObjectPool?
    var next: SmallObjectPool?
    /** The `next` fields of the slot headers, by address. */
    var links: map<nat, nat>
    /** The free slots, by number, in chain order. */
    ghost var chain: seq<nat>

    function HeaderAt(i: nat): nat { page + SlotOffset(objectSize, i) }

    ghost function Address(k: nat): nat
      reads `chain
    {
      if k < |chain| then HeaderAt(chain[k]) else 0
    }

    /** The chain holds exactly as many different slots as the count says. */
    ghost predicate Valid()
      reads `first, `objectsCount, `links, `chain
    {
      && IsClass(objectSize) && 0 < page && page % PAGE_SIZE == 0
      && objectsCount == |chain| && DistinctBelow(chain, MaxCount(objectSize))
      && first == Address(0)
      && forall k: nat :: k < |chain| ==> HeaderAt(chain[k]) in links && links[HeaderAt(chain[k])] == Address(k + 1)
    }

    /** Everything but the bucket links. */
    ghost function Body(): (nat, nat, map<nat, nat>, seq<nat>)
      reads `first, `objectsCount, `links, `chain
    {
      (first, objectsCount, links, chain)
    }

    /** The slots handed out. */
    ghost function Live(): set<nat>
      reads `chain
    {
      set i: nat | i < MaxCount(objectSize) && i !in chain
    }

    constructor (page: nat, objectSize: nat)
      requires IsClass(objectSize) && 0 < page && page % PAGE_SIZE == 0
      ensures Valid() && this.page == page && this.objectSize == objectSize
      ensures objectsCount == MaxCount(objectSize) && Live() == {}
    {
      this.page, this.objectSize := page, objectSize;
      prev, next, links := null, null, map[];
      first := page + SlotOffset(objectSize, 0);
      objectsCount := MaxCount(objectSize);
      chain := Upto(MaxCount(objectSize));
      new;
      MaxCountBounds(objectSize);
      var i := 0;
      while i < objectsCount - 1
        invariant i <= objectsCount - 1 && objectsCount == MaxCount(objectSize) && chain == Upto(objectsCount)
        invariant first == HeaderAt(0)
        invariant forall k: nat :: k < i ==> HeaderAt(k) in links && links[HeaderAt(k)] == HeaderAt(k + 1)
      {
        forall k: nat | k < i ensures HeaderAt(k) != HeaderAt(i) { SlotsDiffer(objectSize, k, i); }
        links := links[HeaderAt(i) := HeaderAt(i + 1)];
        i := i + 1;
      }
      forall k: nat | k < i ensures HeaderAt(k) != HeaderAt(i) { SlotsDiffer(objectSize, k, i); }
      links := links[HeaderAt(objectsCount - 1) := 0];
      forall k: nat | k < MaxCount(objectSize) ensures k in chain { assert chain[k] == k; }
    }

    method Alloc() returns (result: nat)
      requires Valid()
      modifies `first, `objectsCount, `chain
      ensures Valid() && (result == 0 <==> old(objectsCount) == 0)
      ensures result == 0 ==> chain == old(chain)
      ensures result != 0 ==> result == HeaderAt(old(chain[0])) && chain == old(chain[1..])
      ensures result != 0 ==> objectsCount == old(objectsCount) - 1
      ensures result != 0 ==> old(chain[0]) !in old(Live()) && Live() == old(Live()) + {old(chain[0])}
    {
      hide SlotOffset, MaxCount;
      if first == 0 {
        return 0;
      }
      result := first;
      first := links[first];
      objectsCount := objectsCount - 1;
      chain := chain[1..];
      assert old(chain) == [old(chain[0])] + chain;
    }

    method Free(header: nat, ghost i: nat)
      requires Valid() && i in Live() && header == HeaderAt(i)
      modifies `first, `objectsCount, `links, `chain
      ensures Valid() && chain == [i] + old(chain) && Live() == old(Live()) - {i}
      ensures objectsCount == old(objectsCount) + 1 <= MaxCount(objectSize)
    {
      RoomForOne(chain, MaxCount(objectSize), i);
      forall k: nat | k < |chain| ensures HeaderAt(chain[k]) != HeaderAt(i) { SlotsDiffer(objectSize, chain[k], i); }
      links := links[header := first];
      first := header;
      objectsCount := objectsCount + 1;
      chain := [i] + chain;
    }
  }

  // ---------------------------------------------------------------------- buckets

  ghost function At(list: seq<SmallObjectPool>, i: int): SmallObjectPool? {
    if 0 <= i < |list| then list[i] else null
  }

  ghost predicate Linked(head: SmallObjectPool?, list: seq<SmallObjectPool>)
    reads list`next, list`prev
  {
    && Distinct(list) && head == At(list, 0)
    && (forall i: nat {:trigger list[i].next} :: i < |list| ==> list[i].next == At(list, i + 1))
    && (forall i: nat {:trigger list[i].prev} :: i < |list| ==> list[i].prev == At(list, i - 1))
  }

  ghost function Without(list: seq<SmallObjectPool>, i: nat): seq<SmallObjectPool>
    requires i < |list|
  {
    list[..i] + list[i + 1..]
  }

  lemma WithoutIs(list: seq<SmallObjectPool>, i: nat)
    requires Distinct(list) && i < |list|
    ensures Distinct(Without(list, i))
    ensures forall p :: p in Without(list, i) <==> p in list && p != list[i]
    ensures forall j: int {:trigger At(Without(list, i), j)} ::
      At(Without(list, i), j) == if j < i then At(list, j) else At(list, j + 1)
  {
    var t := Without(list, i);
    assert list == list[..i] + [list[i]] + list[i + 1..];
    forall p | p in list && p != list[i] ensures p in t {
      var j: nat :| j < |list| && list[j] == p;
      assert p == t[if j < i then j else j - 1];
    }
  }

  lemma AheadIs(list: seq<SmallObjectPool>, p: SmallObjectPool)
    requires Distinct(list) && p !in list
    ensures Distinct([p] + list)
    ensures forall j: int {:trigger At([p] + list, j)} ::
      At([p] + list, j) == if j == 0 then p else At(list, j - 1)
  {}

  lemma LinksAt(head: SmallObjectPool?, list: seq<SmallObjectPool>, i: nat)
    requires Linked(head, list) && i < |list|
    ensures list[i].next == At(list, i + 1) && list[i].prev == At(list, i - 1)
    ensures Distinct(list) && head == At(list, 0)
    ensures At(list, i - 1) != null ==> At(list, i - 1) in list && At(list, i - 1) != list[i]
    ensures At(list, i + 1) != null ==> At(list, i + 1) in list && At(list, i + 1) != list[i]
    ensures At(list, i - 1) == null <==> i == 0
  {}

  twostate lemma CutKeepsLinks(list: seq<SmallObjectPool>, new i: nat, new head: SmallObjectPool?)
    requires i < |list| && old(Linked(At(list, 0), list))
    requires head == if i == 0 then At(list, 1) else At(list, 0)
    requires var before, after := At(list, i - 1), At(list, i + 1);
      && (before != null ==> before.next == after) && (after != null ==> after.prev == before)
      && (forall p :: p in list && p != before ==> p.next == old(p.next))
      && (forall p :: p in list && p != after ==> p.prev == old(p.prev))
    ensures Linked(head, Without(list, i))
  {
    var t := Without(list, i);
    WithoutIs(list, i);
    hide Distinct, At;
    forall j: nat | j < |t| ensures t[j].next == At(t, j + 1) && t[j].prev == At(t, j - 1) {
      var k := if j < i then j else j + 1;
      CutNext(list, i, k);
      assert t[j] == list[k];
      assert old(list[k].next) == At(list, k + 1) && old(list[k].prev) == At(list, k - 1);
    }
  }

  /** Which pool stands before or after the one that goes. */
  lemma CutNext(list: seq<SmallObjectPool>, i: nat, k: nat)
    requires Distinct(list) && i < |list| && k < |list|
    ensures list[k] == At(list, i - 1) <==> k + 1 == i
    ensures list[k] == At(list, i + 1) <==> k == i + 1
    ensures At(list, k) == list[k] && list[k] in list
  {}

  twostate lemma AheadKeepsLinks(list: seq<SmallObjectPool>, new p: SmallObjectPool)
    requires old(Linked(At(list, 0), list)) && p !in list
    requires p.prev == null && p.next == At(list, 0) && (list != [] ==> list[0].prev == p)
    requires forall q :: q in list ==> q.next == old(q.next) && (q != list[0] ==> q.prev == old(q.prev))
    ensures Linked(p, [p] + list)
  {
    var t := [p] + list;
    AheadIs(list, p);
    forall j: nat | j < |t| ensures t[j].next == At(t, j + 1) && t[j].prev == At(t, j - 1) {
      if j > 0 {
        assert t[j] == list[j - 1];
        assert old(list[j - 1].next) == At(list, j) && old(list[j - 1].prev) == At(list, j - 2);
      }
    }
  }

  class SizeClass {
    const objectSize: nat
    const poolHeads: array<SmallObjectPool?>
    /** What memory holds at each page of this class. */
    var pages: map<nat, SmallObjectPool>
    ghost var lists: seq<seq<SmallObjectPool>>
    ghost var repr: set<SmallObjectPool>

    /** Every bucket is a doubly linked list, and no pool is on two of them. */
    ghost predicate Buckets()
      reads `lists, `repr, poolHeads, repr`next, repr`prev
    {
      && |lists| == poolHeads.Length
      && (forall k: nat, p :: k < |lists| && p in lists[k] ==> p in repr)
      && (forall k: nat :: k < |lists| ==> Linked(poolHeads[k], lists[k]))
      && (forall j: nat, k: nat, p :: j < k < |lists| && p in lists[j] ==> p !in lists[k])
    }

    /** A pool of this class with k free slots, at its page. */
    ghost predicate Placed(k: nat, p: SmallObjectPool)
      reads `pages, p`first, p`objectsCount, p`links, p`chain
    {
      p.Valid() && p.objectsCount == k && p.objectSize == objectSize && p.page in pages && pages[p.page] == p
    }

    /** Bucket k holds pools with k free slots. */
    ghost predicate AllPlaced()
      reads `lists, `pages, `repr, repr`first, repr`objectsCount, repr`links, repr`chain
    {
      forall k: nat, p :: k < |lists| && p in lists[k] ==> p in repr && Placed(k, p)
    }

    /** Every mapped page holds a pool, in the bucket of its count. */
    ghost predicate AllFound()
      reads `lists, `pages, `repr, repr`objectsCount
    {
      forall g :: g in pages ==>
        pages[g] in repr && pages[g].page == g && pages[g].objectsCount < |lists|
          && pages[g] in lists[pages[g].objectsCount]
    }

    ghost predicate Valid()
      reads this, poolHeads, repr
    {
      IsClass(objectSize) && poolHeads.Length == MaxCount(objectSize) + 1 && Buckets() && AllPlaced() && AllFound()
    }

    /** The headers of the objects handed out. */
    ghost function Objects(): iset<nat>
      reads `pages, pages.Values`chain
    {
      Addresses(objectSize, LiveMap())
    }

    /** Some page has n free slots or more. */
    ghost predicate HasRoom(n: nat)
      reads `pages, pages.Values`objectsCount
    {
      exists g :: g in pages && pages[g].objectsCount >= n
    }

    /** The buckets from n upwards hold exactly the pools of such pages. */
    lemma RoomIsInBuckets(n: nat)
      requires Valid()
      ensures HasRoom(n) <==> exists k: nat :: n <= k < |lists| && lists[k] != []
    {
      if k: nat :| n <= k < |lists| && lists[k] != [] {
        assert Placed(k, lists[k][0]);
        assert pages[lists[k][0].page].objectsCount >= n;
      }
    }

    /** A page has room for one exactly if not all of its slots are live. */
    lemma RoomForSome(g: nat)
      requires Valid() && g in pages
      ensures pages[g].objectsCount > 0 <==> exists i: nat :: i < MaxCount(objectSize) && i !in pages[g].Live()
    {
      var p := pages[g];
      assert Placed(p.objectsCount, p);
      if p.objectsCount > 0 { assert p.chain[0] in p.chain && p.chain[0] !in p.Live(); }
    }

    ghost function LiveMap(): map<nat, set<nat>>
      reads `pages, pages.Values`chain
    {
      map g | g in pages :: pages[g].Live()
    }

    constructor (objectSize: nat)
      requires IsClass(objectSize)
      ensures Valid() && this.objectSize == objectSize && pages == map[] && fresh(poolHeads) && fresh(repr)
    {
      this.objectSize := objectSize;
      poolHeads := new SmallObjectPool?[MaxCount(objectSize) + 1](_ => null);
      pages, repr := map[], {};
      lists := seq(MaxCount(objectSize) + 1, _ => []);
    }

    twostate lemma PlacedStays(p: SmallObjectPool, new k: nat)
      requires old(Placed(k, p)) && p.page in pages && pages[p.page] == p
      requires p.Body() == old(p.Body())
      ensures Placed(k, p)
    {}

    lemma PlacedIs(p: SmallObjectPool, k: nat)
      requires AllPlaced() && k < |lists| && p in lists[k]
      ensures p in repr && Placed(k, p) && p.objectsCount == k && p.page in pages && pages[p.page] == p
    {}

    /** One pool went from a bucket to another, or away; nothing else changed. */
    twostate lemma OnlyOneMoved(pool: SmallObjectPool, new from: nat, new to: nat)
      requires old(AllPlaced()) && old(AllFound()) && from < |old(lists)| && pool in old(lists)[from]
      requires repr == old(repr) && SameButFor(old(lists), lists, pool, to)
      requires forall p :: p in repr && p != pool ==> p.Body() == old(p.Body())
      requires if to < |lists| then pages == old(pages) && Placed(to, pool) else pages == old(pages) - {pool.page}
      ensures AllPlaced() && AllFound()
    {
      assert old(Placed(from, pool)) && pool in repr;
      forall k: nat, p | k < |lists| && p in lists[k] ensures p in repr && Placed(k, p) {
        if p != pool {
          assert p in old(lists)[k] && old(Placed(k, p));
          PlacedStays(p, k);
        }
      }
      assert to < |lists| ==> pool.objectsCount == to;
      hide Placed;
      forall g | g in pages
        ensures pages[g] in repr && pages[g].page == g && pages[g].objectsCount < |lists|
          && pages[g] in lists[pages[g].objectsCount]
      {
        var p := pages[g];
        if p != pool {
          assert p in old(lists)[old(p.objectsCount)];
        }
      }
    }

    /** A list whose pools keep their links stays linked. */
    twostate lemma StaysLinked(new k: nat, new j: nat, new pool: SmallObjectPool)
      requires old(Buckets()) && k < |old(lists)| && j < |old(lists)| && j != k && repr == old(repr)
      requires poolHeads[j] == old(poolHeads[j]) && pool !in old(lists)[j]
      requires forall p :: p in repr && p !in old(lists)[k] && p != pool ==>
        p.next == old(p.next) && p.prev == old(p.prev)
      ensures Linked(poolHeads[j], old(lists)[j])
    {
      var list := old(lists)[j];
      assert old(Linked(poolHeads[j], lists[j]));
      forall p | p in list ensures p.next == old(p.next) && p.prev == old(p.prev) {
        assert p in repr && p !in old(lists)[k];
      }
    }

    /** One bucket got another list; only its pools and the one that came or went were
        touched. */
    twostate lemma OneBucketChanged(new k: nat, new list: seq<SmallObjectPool>, new pool: SmallObjectPool)
      requires old(Buckets()) && k < |old(lists)| && lists == old(lists)[k := list] && repr == old(repr)
      requires Linked(poolHeads[k], list) && forall j: nat :: j < poolHeads.Length && j != k ==>
        poolHeads[j] == old(poolHeads[j])
      requires forall p :: p in list ==> p in repr && (p in old(lists)[k] || p == pool)
      requires forall j: nat :: j < |lists| && j != k ==> pool !in old(lists)[j]
      requires forall p :: p in repr && p !in old(lists)[k] && p != pool ==>
        p.next == old(p.next) && p.prev == old(p.prev)
      ensures Buckets()
    {
      hide Linked;
      forall j: nat | j < |lists| ensures Linked(poolHeads[j], lists[j]) {
        if j != k { StaysLinked(k, j, pool); }
      }
      forall j: nat, m: nat, p | j < m < |lists| && p in lists[j] ensures p !in lists[m] {
        assert p in old(lists)[j] || p == pool;
      }
    }

    method CutPoolFrom(pool: SmallObjectPool, k: nat, ghost i: nat)
      requires Buckets() && k < |lists| && i < |lists[k]| && lists[k][i] == pool
      modifies `lists, poolHeads, repr`next, repr`prev
      ensures Buckets() && lists == old(lists)[k := Without(old(lists[k]), i)]
    {
      ghost var list := lists[k];
      LinksAt(poolHeads[k], list, i);
      WithoutIs(list, i);
      OnlyHere(pool, k);
      hide Linked, Without, At, Buckets;
      if pool.prev == null {
        poolHeads[k] := pool.next;
      } else {
        pool.prev.next := pool.next;
      }
      if pool.next != null {
        pool.next.prev := pool.prev;
      }
      CutKeepsLinks(list, i, poolHeads[k]);
      lists := lists[k := Without(list, i)];
      OneBucketChanged(k, Without(list, i), pool);
    }

    lemma OnlyHere(pool: SmallObjectPool, k: nat)
      requires Buckets() && k < |lists| && pool in lists[k]
      ensures forall j: nat :: j < |lists| && j != k ==> pool !in lists[j]
      ensures forall p :: p in lists[k] ==> p in repr
      ensures |lists| == poolHeads.Length && Linked(poolHeads[k], lists[k])
    {}

    method InsertPoolTo(pool: SmallObjectPool, k: nat)
      requires Buckets() && k < |lists| && pool in repr && forall j: nat :: j < |lists| ==> pool !in lists[j]
      modifies `lists, poolHeads, repr`next, repr`prev
      ensures Buckets() && lists == old(lists)[k := [pool] + old(lists[k])]
    {
      ghost var list := lists[k];
      HeadOf(poolHeads[k], list);
      assert Linked(poolHeads[k], list) && |lists| == poolHeads.Length && forall p :: p in list ==> p in repr;
      hide Linked, At, Buckets;
      pool.next := poolHeads[k];
      pool.prev := null;
      if pool.next != null {
        pool.next.prev := pool;
      }
      poolHeads[k] := pool;
      AheadKeepsLinks(list, pool);
      lists := lists[k := [pool] + list];
      OneBucketChanged(k, [pool] + list, pool);
    }

    /** Takes a slot from the first pool found from the hint upwards: an object no one
        holds. Without such a pool, 0. */
    method AllocFromSlubs(hint: nat) returns (header: nat)
      requires Valid() && 1 <= hint
      modifies `lists, poolHeads, repr`next, repr`prev, repr`first, repr`objectsCount, repr`chain
      ensures Valid() && pages == old(pages) && repr == old(repr)
      ensures header == 0 <==> !old(HasRoom(hint))
      ensures header == 0 ==> lists == old(lists) && Objects() == old(Objects())
      ensures header == 0 ==> forall k: nat :: hint <= k < |lists| ==> lists[k] == []
      ensures header != 0 ==> header !in old(Objects()) && Objects() == old(Objects()) + iset{header}
    {
      hide Linked, Objects, HasRoom;
      RoomIsInBuckets(hint);
      var index := Scan(hint);
      if index < poolHeads.Length {
        header := AllocFrom(index, poolHeads[index]);
      } else {
        header := 0;
      }
    }

    /** The first bucket from the hint upwards that is not empty. */
    method Scan(hint: nat) returns (index: nat)
      requires Buckets()
      ensures hint <= index && (index < poolHeads.Length ==> poolHeads[index] != null)
      ensures forall k: nat :: hint <= k < index && k < |lists| ==> lists[k] == []
      ensures |lists| == poolHeads.Length && (index < |lists| ==> lists[index] != [])
    {
      hide Linked;
      index := hint;
      while index < poolHeads.Length && poolHeads[index] == null
        invariant hint <= index
        invariant forall k: nat :: hint <= k < index && k < |lists| ==> lists[k] == []
      {
        EmptyBucket(index);
        index := index + 1;
      }
      if index < poolHeads.Length { InBucket(poolHeads[index], index); }
    }

    method AllocFrom(index: nat, pool: SmallObjectPool) returns (header: nat)
      requires Valid() && 1 <= index < poolHeads.Length && poolHeads[index] == pool
      modifies `lists, poolHeads, repr`next, repr`prev, repr`first, repr`objectsCount, repr`chain
      ensures Valid() && pages == old(pages) && repr == old(repr)
      ensures header != 0 && header !in old(Objects()) && Objects() == old(Objects()) + iset{header}
    {
      hide Linked, Distinct, Placed, AllPlaced, AllFound, Buckets, Without, Objects, SameButFor, SmallObjectPool.Valid,
        SmallObjectPool.Live, SmallObjectPool.Body, MaxCount, IsClass;
      InBucket(pool, index);
      ghost var cut := lists[index := Without(lists[index], 0)];
      ghost var moved := cut[index - 1 := [pool] + cut[index - 1]];
      MovesList(lists, index, 0, index - 1, pool, cut, moved);
      PlacedIs(pool, index);
      PoolIs(pool, index);
      ghost var i := pool.chain[0];
      CutPoolFrom(pool, pool.objectsCount, 0);
      assert lists == cut;
      NowhereElse(old(lists), cut, pool);
      header := pool.Alloc();
      InsertPoolTo(pool, pool.objectsCount);
      assert lists == moved;
      PlacedAgain(pool, index - 1);
      OnlyOneMoved(pool, index, index - 1);
      GainsOne(pool, i);
    }

    lemma PoolIs(p: SmallObjectPool, k: nat)
      requires Placed(k, p)
      ensures p.Valid() && p.objectsCount == k && |p.chain| == k && p.objectSize == objectSize
      ensures k > 0 ==> p.chain[0] < MaxCount(objectSize) && p.chain[0] !in p.chain[1..]
      ensures k > 0 ==> p.chain == [p.chain[0]] + p.chain[1..]
    {}

    lemma EmptyBucket(k: nat)
      requires Buckets() && k < poolHeads.Length && poolHeads[k] == null
      ensures |lists| == poolHeads.Length && lists[k] == []
    {
      HeadOf(poolHeads[k], lists[k]);
    }

    lemma InBucket(pool: SmallObjectPool, k: nat)
      requires Buckets() && k < poolHeads.Length && poolHeads[k] == pool
      ensures |lists| == poolHeads.Length && lists[k] != [] && lists[k][0] == pool && Distinct(lists[k])
      ensures forall j: nat :: j < |lists| && j != k ==> pool !in lists[j]
    {}

    lemma PlacedAgain(p: SmallObjectPool, k: nat)
      requires p.Valid() && p.objectsCount == k && p.objectSize == objectSize && p.page in pages && pages[p.page] == p
      ensures Placed(k, p)
    {}

    /** One slot of one pool became live. */
    twostate lemma GainsOne(pool: SmallObjectPool, new i: nat)
      requires repr == old(repr) && pages == old(pages) && pool.page in pages && pages[pool.page] == pool
      requires IsClass(objectSize) && old(AllPlaced()) && old(AllFound())
      requires forall p :: p in repr && p != pool ==> p.Body() == old(p.Body())
      requires i < MaxCount(objectSize) && old(pool.chain) == [i] + pool.chain && i !in pool.chain
      ensures pool.HeaderAt(i) !in old(Objects()) && Objects() == old(Objects()) + iset{pool.HeaderAt(i)}
    {
      hide AllPlaced, AllFound, MaxCount, Addresses, IsClass, LiveSlots;
      WasSlots();
      var g := pool.page;
      OneMore(objectSize, old(LiveMap()), g, i);
      assert pool.Live() == old(pool.Live()) + {i};
      OthersLive(pool);
      assert LiveMap() == old(LiveMap())[g := old(LiveMap())[g] + {i}];
    }

    twostate lemma WasSlots()
      requires old(AllPlaced()) && old(AllFound())
      ensures LiveSlots(objectSize, old(LiveMap()))
      ensures forall g :: g in old(pages) ==> var p := old(pages)[g];
        p.page == g && g % PAGE_SIZE == 0 && p.objectSize == objectSize && p in old(repr)
    {
      forall g | g in old(pages)
        ensures var p := old(pages)[g];
          p.page == g && g % PAGE_SIZE == 0 && p.objectSize == objectSize && p in old(repr)
      {
        assert old(Placed(pages[g].objectsCount, pages[g]));
      }
    }

    twostate lemma OthersLive(new pool: SmallObjectPool)
      requires old(AllFound())
      requires forall p :: p in old(repr) && p != pool ==> p.Body() == old(p.Body())
      ensures forall g :: g in old(pages) && old(pages)[g] != pool ==> old(pages)[g].Live() == old(pages[g].Live())
    {
      forall g | g in old(pages) && old(pages)[g] != pool ensures old(pages)[g].Live() == old(pages[g].Live()) {
        assert old(pages)[g].Body() == old(pages[g].Body());
      }
    }

    /** A new page, all of it free. */
    method GetNewPool(page: nat)
      requires Valid() && 0 < page && page % PAGE_SIZE == 0 && page !in pages
      modifies `lists, `pages, `repr, poolHeads, repr`next, repr`prev
      ensures Valid() && fresh(repr - old(repr)) && old(repr) <= repr
      ensures pages.Keys == old(pages).Keys + {page} && Objects() == old(Objects())
      ensures |lists| == poolHeads.Length && lists[|lists| - 1] != []
    {
      hide Linked, Distinct, Placed, AllPlaced, AllFound, Buckets, Without, Objects, SmallObjectPool.Valid,
        SmallObjectPool.Live, SmallObjectPool.Body, MaxCount, IsClass;
      var pool := new SmallObjectPool(page, objectSize);
      ghost var last := poolHeads.Length - 1;
      NewIsNowhere(pool);
      repr := repr + {pool};
      BucketsGrow();
      AddsList(lists, last, pool, lists[last := [pool] + lists[last]]);
      InsertPoolTo(pool, poolHeads.Length - 1);
      pages := pages[page := pool];
      PlacedAgain(pool, poolHeads.Length - 1);
      OnlyOneAdded(pool, last);
      NoneGained(pool);
    }

    lemma NewIsNowhere(pool: SmallObjectPool)
      requires Buckets() && pool !in repr
      ensures |lists| == poolHeads.Length && forall j: nat :: j < |lists| ==> pool !in lists[j]
    {}

    twostate lemma BucketsGrow()
      requires old(Buckets()) && lists == old(lists) && old(repr) <= repr
      requires forall k: nat :: k < poolHeads.Length ==> poolHeads[k] == old(poolHeads[k])
      requires forall p :: p in old(repr) ==> p.next == old(p.next) && p.prev == old(p.prev)
      ensures Buckets()
    {}

    twostate lemma OnlyOneAdded(new pool: SmallObjectPool, new to: nat)
      requires old(AllPlaced()) && old(AllFound()) && pool !in old(repr) && repr == old(repr) + {pool}
      requires SameButFor(old(lists), lists, pool, to) && to < |lists| && Placed(to, pool)
      requires forall p :: p in old(repr) ==> p.Body() == old(p.Body())
      requires pool.page !in old(pages) && pages == old(pages)[pool.page := pool]
      ensures AllPlaced() && AllFound()
    {
      AddedPlaced(pool, to);
      assert pool.objectsCount == to;
      hide Placed, AllPlaced;
      forall g | g in pages
        ensures pages[g] in repr && pages[g].page == g && pages[g].objectsCount < |lists|
          && pages[g] in lists[pages[g].objectsCount]
      {
        var p := pages[g];
        if p != pool {
          assert p in old(lists)[old(p.objectsCount)];
        }
      }
    }

    twostate lemma AddedPlaced(new pool: SmallObjectPool, new to: nat)
      requires old(AllPlaced()) && pool !in old(repr) && repr == old(repr) + {pool}
      requires SameButFor(old(lists), lists, pool, to) && Placed(to, pool)
      requires forall p :: p in old(repr) ==> p.Body() == old(p.Body())
      requires pool.page !in old(pages) && pages == old(pages)[pool.page := pool]
      ensures AllPlaced()
    {
      forall k: nat, p | k < |lists| && p in lists[k] ensures p in repr && Placed(k, p) {
        if p != pool {
          assert p in old(lists)[k] && old(Placed(k, p));
          PlacedStays(p, k);
        }
      }
    }

    twostate lemma NoneGained(new pool: SmallObjectPool)
      requires old(AllFound()) && pool !in old(repr) && pool.Live() == {}
      requires forall p :: p in old(repr) ==> p.Body() == old(p.Body())
      requires pool.page !in old(pages) && pages == old(pages)[pool.page := pool]
      ensures Objects() == old(Objects())
    {
      OthersLive(pool);
      EmptyPage(objectSize, LiveMap(), pool.page);
      assert LiveMap() - {pool.page} == old(LiveMap());
    }

    /** An object, or 0 when there is neither a free slot nor a page. */
    method Alloc(hint: nat, page: nat) returns (header: nat)
      requires Valid() && 1 <= hint && (page != 0 ==> page % PAGE_SIZE == 0 && page !in pages)
      modifies `lists, `pages, `repr, poolHeads, repr`next, repr`prev, repr`first, repr`objectsCount, repr`chain
      ensures Valid() && fresh(repr - old(repr)) && old(repr) <= repr
      ensures header == 0 <==> page == 0 && !old(HasRoom(hint))
      ensures pages.Keys == old(pages).Keys + if page != 0 && !old(HasRoom(hint)) then {page} else {}
      ensures header == 0 ==> Objects() == old(Objects())
      ensures header != 0 ==> header !in old(Objects()) && Objects() == old(Objects()) + iset{header}
    {
      hide Linked, Placed, AllPlaced, AllFound, Buckets, Objects, HasRoom;
      header := AllocFromSlubs(hint);
      if header == 0 {
        if page == 0 {
          return 0;
        }
        GetNewPool(page);
        MaxCountBounds(objectSize);
        RoomIsInBuckets(MaxCount(objectSize));
        header := AllocFromSlubs(MaxCount(objectSize));
      }
    }

    /** Gives an object back. Its page is unmapped exactly when it was the last one
        there. */
    method Free(header: nat, ghost i: nat)
      requires Valid() && AlignDown(header) in pages && i in pages[AlignDown(header)].Live()
      requires header == pages[AlignDown(header)].HeaderAt(i)
      modifies `lists, `pages, poolHeads, repr`next, repr`prev, repr`first, repr`objectsCount, repr`links, repr`chain
      ensures Valid() && repr == old(repr)
      ensures header in old(Objects()) && Objects() == old(Objects()) - iset{header}
      ensures var g := AlignDown(header);
        pages == if old(pages[g].Live()) == {i} then old(pages) - {g} else old(pages)
    {
      hide Linked, Distinct, Placed, AllPlaced, AllFound, Buckets, Without, Objects, SameButFor, SmallObjectPool.Valid,
        SmallObjectPool.Body, MaxCount, IsClass;
      var poolAddr := AlignDown(header);
      var pool := pages[poolAddr];
      ghost var k := pool.objectsCount;
      ghost var j := FoundAt(poolAddr);
      PlacedIs(pool, k);
      PoolIs(pool, k);
      LastOne(pool, i);
      NotInOthers(pool, k);
      ghost var cut := lists[k := Without(lists[k], j)];
      ghost var to := if k + 1 < |lists| then k + 1 else 0;
      ghost var moved := cut[to := [pool] + cut[to]];
      MovesList(lists, k, j, to, pool, cut, moved);
      CutPoolFrom(pool, pool.objectsCount, j);
      NowhereElse(old(lists), cut, pool);
      pool.Free(header, i);
      if pool.objectsCount == MaxCount(pool.objectSize) {
        pages := pages - {poolAddr};
        OnlyOneMoved(pool, k, |lists|);
      } else {
        InsertPoolTo(pool, pool.objectsCount);
        PlacedAgain(pool, k + 1);
        OnlyOneMoved(pool, k, k + 1);
      }
      LosesOne(pool, i);
    }

    lemma FoundAt(g: nat) returns (j: nat)
      requires Buckets() && AllFound() && g in pages
      ensures var k := pages[g].objectsCount;
        k < |lists| == poolHeads.Length && j < |lists[k]| && lists[k][j] == pages[g] && pages[g].page == g
    {
      var k := pages[g].objectsCount;
      j :| 0 <= j < |lists[k]| && lists[k][j] == pages[g];
    }

    lemma NotInOthers(pool: SmallObjectPool, k: nat)
      requires Buckets() && k < |lists| && pool in lists[k]
      ensures Distinct(lists[k]) && forall j: nat :: j < |lists| && j != k ==> pool !in lists[j]
    {}

    /** A slot is the last live one exactly when all others are free. */
    lemma LastOne(pool: SmallObjectPool, i: nat)
      requires pool.Valid() && i in pool.Live()
      ensures pool.Live() == {i} <==> pool.objectsCount + 1 == MaxCount(pool.objectSize)
      ensures pool.objectsCount < MaxCount(pool.objectSize)
    {
      var n, s := MaxCount(pool.objectSize), [i] + pool.chain;
      ChainIs(pool);
      hide MaxCount, SmallObjectPool.Valid, DistinctBelow;
      RoomForOne(pool.chain, n, i);
      if other: nat :| other in pool.Live() && other != i {
        RoomForOne(s, n, other);
      } else {
        forall k: nat | k < n ensures k in s {
          assert k in pool.Live() ==> k == i;
          assert k != i ==> k in pool.chain;
        }
        AllThere(s, n);
      }
    }

    lemma ChainIs(pool: SmallObjectPool)
      requires pool.Valid()
      ensures DistinctBelow(pool.chain, MaxCount(pool.objectSize)) && pool.objectsCount == |pool.chain|
    {}

    /** One slot of one pool became free; the pool may have gone with it. */
    twostate lemma LosesOne(pool: SmallObjectPool, new i: nat)
      requires repr == old(repr) && pool.page in old(pages) && old(pages)[pool.page] == pool
      requires pages == old(pages) || (pages == old(pages) - {pool.page} && pool.Live() == {})
      requires IsClass(objectSize) && old(AllPlaced()) && old(AllFound())
      requires forall p :: p in repr && p != pool ==> p.Body() == old(p.Body())
      requires i < MaxCount(objectSize) && pool.chain == [i] + old(pool.chain) && i !in old(pool.chain)
      ensures pool.HeaderAt(i) in old(Objects()) && Objects() == old(Objects()) - iset{pool.HeaderAt(i)}
    {
      hide AllPlaced, AllFound, MaxCount, Addresses, IsClass, LiveSlots;
      WasSlots();
      var g := pool.page;
      OneLess(objectSize, old(LiveMap()), g, i);
      assert pool.Live() == old(pool.Live()) - {i};
      OthersLive(pool);
      if pages == old(pages) {
        assert LiveMap() == old(LiveMap())[g := old(LiveMap())[g] - {i}];
      } else {
        assert old(pool.Live()) == {i};
        assert LiveMap() == old(LiveMap()) - {g};
      }
    }
  }

  /** The same pools in the same buckets, except for one, which is in bucket `to` or,
      if there is none such, in none. */
  ghost predicate SameButFor(a: seq<seq<SmallObjectPool>>, b: seq<seq<SmallObjectPool>>, pool: SmallObjectPool,
      to: nat)
  {
    && |a| == |b|
    && (forall k: nat, p :: k < |b| && p in b[k] && p != pool ==> p in a[k])
    && (forall k: nat, p :: k < |b| && p in a[k] && p != pool ==> p in b[k])
    && (forall k: nat :: k < |b| ==> (pool in b[k] <==> k == to))
  }

  lemma NowhereElse(a: seq<seq<SmallObjectPool>>, b: seq<seq<SmallObjectPool>>, pool: SmallObjectPool)
    requires SameButFor(a, b, pool, |a|)
    ensures |a| == |b| && forall k: nat :: k < |b| ==> pool !in b[k]
  {}

  lemma AddsList(lists: seq<seq<SmallObjectPool>>, to: nat, pool: SmallObjectPool, added: seq<seq<SmallObjectPool>>)
    requires to < |lists| && added == lists[to := [pool] + lists[to]]
    requires forall k: nat :: k < |lists| ==> pool !in lists[k]
    ensures SameButFor(lists, added, pool, to)
  {}

  /** `cut` and `moved` are the lists once the pool is off its bucket, and once it is
      on another. */
  lemma MovesList(lists: seq<seq<SmallObjectPool>>, from: nat, i: nat, to: nat, pool: SmallObjectPool,
                  cut: seq<seq<SmallObjectPool>>, moved: seq<seq<SmallObjectPool>>)
    requires from < |lists| && to < |lists| && from != to && i < |lists[from]| && lists[from][i] == pool
      && Distinct(lists[from])
    requires forall k: nat :: k < |lists| && k != from ==> pool !in lists[k]
    requires cut == lists[from := Without(lists[from], i)] && moved == cut[to := [pool] + cut[to]]
    ensures SameButFor(lists, cut, pool, |lists|) && SameButFor(lists, moved, pool, to)
  {
    WithoutIs(lists[from], i);
  }

  lemma HeadOf(head: SmallObjectPool?, list: seq<SmallObjectPool>)
    requires Linked(head, list)
    ensures head == At(list, 0) && (list == [] <==> head == null) && (list != [] ==> head == list[0])
    ensures Distinct(list)
  {}
}
