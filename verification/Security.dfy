/**
 The permission checks of the system calls, what they promise about user writes,
 and a user write as the processor and the fault handler perform it together.
 */
module Security {
  import opened Basics
  import opened PageTables
  import opened AddressSpaces
  import opened Paging
  import opened CowFault
  import opened CowMap
  import opened CowExit
  import opened CowFork
  import opened CowUnmap
  import opened CowRuns
  import opened CowKernel
  import opened FaultPass
  import opened Traversal

  // ------------------------------------------------------ checking one page

  /** What `virtualPageConditionCheck` accepts. */
  ghost predicate PageAccepted(s: State, r: nat, q: seq<nat>, isUser: bool, isWritable: bool) {
    && (forall j :: 1 <= j <= |q| ==> Ent(s.mem, r, q[..j]).Some?)
    && (isUser ==> UserAccess(s.mem, r, q))
    && (isWritable ==> WriteAccess(s.mem, r, q))
  }

  /** The entries met on the way to a page. */
  predicate Levels(s: State, r: nat, q: seq<nat>, e4: Option<Entry>, e3: Option<Entry>, e2: Option<Entry>,
      e1: Option<Entry>)
  {
    && |q| == LEVELS
    && Ent(s.mem, r, q[..1]) == e4 && Ent(s.mem, r, q[..2]) == e3 && Ent(s.mem, r, q[..3]) == e2
      && Ent(s.mem, r, q[..4]) == e1
  }

  lemma LevelsDecide(s: State, r: nat, q: seq<nat>, e4: Option<Entry>, e3: Option<Entry>, e2: Option<Entry>,
      e1: Option<Entry>, isUser: bool, isWritable: bool)
    requires Levels(s, r, q, e4, e3, e2, e1)
    ensures PageAccepted(s, r, q, isUser, isWritable) <==>
      && e4.Some? && e3.Some? && e2.Some? && e1.Some?
      && (isUser ==> e4.value.user && e3.value.user && e2.value.user && e1.value.user)
      && (isWritable ==> e4.value.EffectivelyWritable() && e3.value.EffectivelyWritable())
      && (isWritable ==> e2.value.EffectivelyWritable() && e1.value.EffectivelyWritable())
    ensures HardwareAllows(s, r, q) <==>
      && e4.Some? && e3.Some? && e2.Some? && e1.Some?
      && e4.value.user && e3.value.user && e2.value.user && e1.value.user
      && e4.value.writable && e3.value.writable && e2.value.writable && e1.value.writable
  {
    assert forall j :: 1 <= j <= |q| ==>
      Ent(s.mem, r, q[..j]) == if j == 1 then e4 else if j == 2 then e3 else if j == 3 then e2 else e1;
  }

  // ------------------------------------------------- the processor's walk

  /** One level of the processor's walk. */
  method ReadEntry(k: CoW, r: nat, q: seq<nat>, j: nat, t: nat) returns (e: Option<Entry>)
    requires k.Valid() && r in k.roots && |q| == LEVELS && j < LEVELS && q[j] < ENTRIES
    requires Walk(k.S().mem, r, q[..j]) == Some(t)
    ensures e == Ent(k.S().mem, r, q[..j + 1])
    ensures e.Some? ==> Walk(k.S().mem, r, q[..j + 1]) == Some(e.value.frame)
  {
    hide Inv;
    ghost var s := k.S();
    AlongPath(s, r, q, t, j);
    ShortWalk(s, r, q[..j]);
    if !k.mem[t].es[q[j]].present { return None; }
    e := Some(k.mem[t].es[q[j]]);
  }

  /** The walk of the processor: the four entries, as far as they are present. */
  method ReadLevels(k: CoW, r: nat, q: seq<nat>)
    returns (e4: Option<Entry>, e3: Option<Entry>, e2: Option<Entry>, e1: Option<Entry>)
    requires k.Valid() && r in k.roots && |q| == LEVELS && forall j :: 0 <= j < |q| ==> q[j] < ENTRIES
    ensures Levels(k.S(), r, q, e4, e3, e2, e1)
    ensures e1.Some? ==> Walk(k.S().mem, r, q) == Some(e1.value.frame)
  {
    hide Inv;
    ghost var s := k.S();
    TopStep(s, r, q);
    e3, e2, e1 := None, None, None;
    e4 := ReadEntry(k, r, q, 0, r);
    if e4.None? { NothingFurther(s, r, q, 1); return; }
    e3 := ReadEntry(k, r, q, 1, e4.value.frame);
    if e3.None? { NothingFurther(s, r, q, 2); return; }
    e2 := ReadEntry(k, r, q, 2, e3.value.frame);
    if e2.None? { NothingFurther(s, r, q, 3); return; }
    e1 := ReadEntry(k, r, q, 3, e2.value.frame);
    assert q[..4] == q;
  }

  lemma NothingFurther(s: State, r: nat, q: seq<nat>, j: nat)
    requires |q| == LEVELS && 1 <= j <= LEVELS && Ent(s.mem, r, q[..j]).None?
    ensures forall i :: j <= i <= LEVELS ==> Ent(s.mem, r, q[..i]).None?
  {
    forall i | j <= i <= LEVELS ensures Ent(s.mem, r, q[..i]).None? {
      assert q[..i][..j] == q[..j];
      if Walk(s.mem, r, q[..i]).Some? {
        WalkPrefix(s.mem, r, q[..i], j);
      }
    }
  }

  /** `virtualPageConditionCheck`, for any 64-bit address.  The mask of the code checks
      is, by operator precedence, the present bit, so with `isCode` no page passes. */
  method VirtualPageConditionCheck(k: CoW, r: nat, page: nat, isUser: bool, isWritable: bool, isCode: bool)
    returns (ok: bool)
    requires k.Valid() && r in k.roots
    ensures ok <==> !isCode && PageAccepted(k.S(), r, PathAt(page), isUser, isWritable)
  {
    hide PageAccepted, Levels, Inv, PathAt;
    var q := PathAt(page);
    var e4, e3, e2, e1 := ReadLevels(k, r, q);
    LevelsDecide(k.S(), r, q, e4, e3, e2, e1, isUser, isWritable);
    if e4.None? { return false; }
    if e3.None? { return false; }
    if e2.None? { return false; }
    if e1.None? { return false; }
    if isUser && !e4.value.user { return false; }
    if isUser && !e3.value.user { return false; }
    if isUser && !e2.value.user { return false; }
    if isUser && !e1.value.user { return false; }
    TopIsPresent(k.S(), r, q, e4, e3, e2, e1);
    if isCode && e4.value.present { return false; }
    if isWritable && !e4.value.EffectivelyWritable() { return false; }
    if isWritable && !e3.value.EffectivelyWritable() { return false; }
    if isWritable && !e2.value.EffectivelyWritable() { return false; }
    if isWritable && !e1.value.EffectivelyWritable() { return false; }
    ok := true;
  }

  lemma TopIsPresent(s: State, r: nat, q: seq<nat>, e4: Option<Entry>, e3: Option<Entry>, e2: Option<Entry>,
      e1: Option<Entry>)
    requires Levels(s, r, q, e4, e3, e2, e1) && e4.Some?
    ensures e4.value.present
  {}

  // ----------------------------------------------------- checking a range

  /** Where the loop over the pages of a range ends. */
  function RangeEnd(start: nat, size: nat): nat { AlignUp((start + size) % WORD_LIMIT) }

  predicate Visited(page: nat, start: nat, size: nat) {
    page % PAGE_SIZE == 0 && AlignDown(start) <= page < RangeEnd(start, size)
  }

  /** `virtualRangeConditionCheck`. */
  method VirtualRangeConditionCheck(k: CoW, r: nat, start: nat, size: nat, isUser: bool, isWritable: bool, isCode: bool)
    returns (ok: bool)
    requires k.Valid() && r in k.roots && start < WORD_LIMIT && size < WORD_LIMIT
    ensures ok <==> forall page | Visited(page, start, size) ::
      !isCode && PageAccepted(k.S(), r, PathAt(page), isUser, isWritable)
  {
    hide PageAccepted, Inv, PathAt;
    var begin, end := AlignDown(start), RangeEnd(start, size);
    var page := begin;
    while page < end
      invariant begin <= page && page % PAGE_SIZE == 0
      invariant forall p: nat | Visited(p, start, size) && p < page ::
        !isCode && PageAccepted(k.S(), r, PathAt(p), isUser, isWritable)
    {
      ok := VirtualPageConditionCheck(k, r, page, isUser, isWritable, isCode);
      if !ok {
        assert Visited(page, start, size);
        return;
      }
      page := page + PAGE_SIZE;
    }
    ok := true;
  }

  /** The address of byte i of a range, and its page; addresses wrap at 2^64. */
  function ByteAt(start: nat, i: nat): nat { (start + i) % WORD_LIMIT }
  function ByteOnPage(start: nat, i: nat): nat { AlignDown(ByteAt(start, i)) }

  /** The loop looks at the page of every byte... */
  ghost predicate VisitsEveryByte(start: nat, size: nat) {
    forall i :: 0 <= i < size ==> Visited(ByteOnPage(start, i), start, size)
  }

  /** ... exactly when rounding up the end does not wrap around, or the range is empty.
      For every other range the loop ends early and accepts unvisited pages. */
  lemma RangeCheckSoundness(start: nat, size: nat)
    requires start < WORD_LIMIT && size < WORD_LIMIT
    ensures VisitsEveryByte(start, size) <==> size == 0 || start + size + PAGE_SIZE - 1 < WORD_LIMIT
  {
    if size > 0 && start + size + PAGE_SIZE - 1 < WORD_LIMIT {
      forall i | 0 <= i < size ensures Visited(ByteOnPage(start, i), start, size) { ByteVisited(start, size, i); }
    } else if size > 0 {
      var i := Missed(start, size);
    }
  }

  lemma ByteVisited(start: nat, size: nat, i: nat)
    requires start + size + PAGE_SIZE - 1 < WORD_LIMIT && i < size
    ensures Visited(ByteOnPage(start, i), start, size)
  {}

  /** A byte of a wrapping range on a page the loop does not visit. */
  lemma Missed(start: nat, size: nat) returns (i: nat)
    requires start < WORD_LIMIT && 0 < size < WORD_LIMIT && start + size + PAGE_SIZE - 1 >= WORD_LIMIT
    ensures i < size && !Visited(ByteOnPage(start, i), start, size)
  {
    if start + size <= WORD_LIMIT {
      i := 0;
    } else {
      i := WORD_LIMIT - 1 - start;
    }
  }

  /** Page holds a byte of the range. */
  ghost predicate HoldsByte(page: nat, start: nat, size: nat) {
    exists i: nat :: i < size && ByteOnPage(start, i) == page
  }

  /** No page is looked at in vain, unless the range is empty and starts inside a page that
      is not the last one. */
  lemma VisitsInVainIff(start: nat, size: nat)
    requires start < WORD_LIMIT && size < WORD_LIMIT
    ensures (forall page: nat | Visited(page, start, size) :: HoldsByte(page, start, size)) <==>
      size > 0 || start % PAGE_SIZE == 0 || start > WORD_LIMIT - PAGE_SIZE
  {
    hide Visited, HoldsByte, ByteOnPage;
    if size > 0 {
      forall page: nat | Visited(page, start, size) ensures HoldsByte(page, start, size) {
        var i := ByteOn(page, start, size);
        ByteHeld(page, start, size, i);
      }
    } else {
      NoneHeld(start);
      EmptyRange(start);
    }
  }

  lemma ByteOn(page: nat, start: nat, size: nat) returns (i: nat)
    requires start < WORD_LIMIT && 0 < size < WORD_LIMIT && Visited(page, start, size)
    ensures i < size && ByteOnPage(start, i) == page
  {
    if page <= start {
      i := 0;
      FirstPage(page, start);
    } else {
      i := page - start;
      PageBelow(page, (start + size) % WORD_LIMIT);
      LaterPage(page, start);
    }
  }

  lemma FirstPage(page: nat, start: nat)
    requires start < WORD_LIMIT && page % PAGE_SIZE == 0 && AlignDown(start) <= page <= start
    ensures ByteOnPage(start, 0) == page
  {
    assert (start + 0) % WORD_LIMIT == start;
  }

  lemma LaterPage(page: nat, start: nat)
    requires page % PAGE_SIZE == 0 && start <= page < WORD_LIMIT
    ensures ByteOnPage(start, page - start) == page
  {}

  lemma PageBelow(page: nat, end: nat)
    requires page % PAGE_SIZE == 0 && page < AlignUp(end) && end < WORD_LIMIT
    ensures page < end
  {}

  lemma ByteHeld(page: nat, start: nat, size: nat, i: nat)
    requires i < size && ByteOnPage(start, i) == page
    ensures HoldsByte(page, start, size)
  {}

  lemma NoneHeld(start: nat)
    ensures forall page: nat :: !HoldsByte(page, start, 0)
  {}

  lemma EmptyRange(start: nat)
    requires start < WORD_LIMIT
    ensures Visited(AlignDown(start), start, 0) <==> start % PAGE_SIZE != 0 && start <= WORD_LIMIT - PAGE_SIZE
    ensures !Visited(AlignDown(start), start, 0) ==> forall page: nat :: !Visited(page, start, 0)
  {}

  // ------------------------------------------- what a user check establishes

  /** The addresses the processor accepts: bits 47 to 63 agree. */
  predicate CanonicalAddress(a: nat) {
    a < USER_END || WORD_LIMIT - USER_END <= a < WORD_LIMIT
  }

  /** If the paths of all pages the loop visits are good, every byte is at an address the
      processor accepts and its path is good. */
  ghost predicate AcceptanceMeans(start: nat, size: nat) {
    forall good: iset<seq<nat>> | AllVisitedGood(good, start, size) :: EveryByteGood(good, start, size)
  }

  /** The same if good paths lie in the user half only. */
  ghost predicate UserAcceptanceMeans(start: nat, size: nat) {
    forall good: iset<seq<nat>> | OnlyUser(good)
      && AllVisitedGood(good, start, size) :: EveryByteGood(good, start, size)
  }

  ghost predicate OnlyUser(good: iset<seq<nat>>) {
    forall q :: q in good ==> PagePath(q)
  }

  ghost predicate AllVisitedGood(good: iset<seq<nat>>, start: nat, size: nat) {
    forall page | Visited(page, start, size) :: PathAt(page) in good
  }

  ghost predicate EveryByteGood(good: iset<seq<nat>>, start: nat, size: nat) {
    forall i :: 0 <= i < size ==> CanonicalAddress(ByteAt(start, i)) && PathAt(ByteAt(start, i)) in good
  }

  /** The loop comes to a page with bit 47 set, and there a user check fails. */
  predicate TouchesUpperHalf(start: nat, size: nat) {
    var begin, end := AlignDown(start), RangeEnd(start, size);
    begin < end && (begin / USER_END % 2 == 1 || (begin / USER_END + 1) * USER_END < end)
  }

  /** What a caller can test before it trusts a check, whatever is mapped. */
  predicate Sound(start: nat, size: nat) {
    size == 0 || start + size <= USER_END
    || (WORD_LIMIT - USER_END <= start && start + size + PAGE_SIZE - 1 < WORD_LIMIT)
  }

  /** What a caller can test before it trusts a user check, as long as no page of the upper
      half is open to users. */
  predicate Trustworthy(start: nat, size: nat) {
    size == 0 || start + size <= USER_END || TouchesUpperHalf(start, size)
  }

  /** Acceptance means that every byte can be reached on an accepted page exactly when the
      range is empty or lies within one of the two halves the processor accepts, and the end
      does not wrap.  Otherwise the loop ends early, or the masked indices of an address that
      is not canonical stand for another page. */
  lemma AcceptanceMeansIff(start: nat, size: nat)
    requires start < WORD_LIMIT && size < WORD_LIMIT
    ensures AcceptanceMeans(start, size) <==> Sound(start, size)
  {
    hide PathAt, Visited;
    if Sound(start, size) {
      forall good: iset<seq<nat>> | AllVisitedGood(good, start, size) ensures EveryByteGood(good, start, size) {
        forall i | 0 <= i < size ensures CanonicalAddress(ByteAt(start, i)) && PathAt(ByteAt(start, i)) in good {
          ByteVisited(start, size, i);
          SamePagePath(ByteAt(start, i));
        }
      }
    } else {
      var i, unvisited := BadByte(start, size);
      var good := iset page | Visited(page, start, size) :: PathAt(page);
      assert AllVisitedGood(good, start, size);
      assert !EveryByteGood(good, start, size);
    }
  }

  /** A byte that shows that a range is not sound: it is not canonical, or nothing at all is
      visited. */
  lemma BadByte(start: nat, size: nat) returns (i: nat, unvisited: bool)
    requires start < WORD_LIMIT && size < WORD_LIMIT && !Sound(start, size)
    ensures i < size && (unvisited || !CanonicalAddress(ByteAt(start, i)))
    ensures unvisited ==> forall page :: !Visited(page, start, size)
  {
    unvisited := false;
    if start < USER_END {
      i := USER_END - start;
    } else if start < WORD_LIMIT - USER_END {
      i := 0;
    } else {
      i, unvisited := WrappedByte(start, size);
    }
  }

  lemma WrappedByte(start: nat, size: nat) returns (i: nat, unvisited: bool)
    requires WORD_LIMIT - USER_END <= start < WORD_LIMIT && 0 < size < WORD_LIMIT
    requires start + size + PAGE_SIZE - 1 >= WORD_LIMIT
    ensures i < size && (unvisited || !CanonicalAddress(ByteAt(start, i)))
    ensures unvisited ==> forall page :: !Visited(page, start, size)
  {
    if start + size <= WORD_LIMIT + USER_END {
      i, unvisited := 0, true;
      EndsLow(start, size);
    } else {
      i, unvisited := WORD_LIMIT - start + USER_END, false;
      assert ByteAt(start, i) == USER_END;
    }
  }

  lemma EndsLow(start: nat, size: nat)
    requires WORD_LIMIT - USER_END <= start < WORD_LIMIT && 0 < size < WORD_LIMIT
    requires WORD_LIMIT <= start + size + PAGE_SIZE - 1 && start + size <= WORD_LIMIT + USER_END
    ensures RangeEnd(start, size) < AlignDown(start)
  {}

  /** As long as no page of the upper half is open to users, a user check may also be
      trusted if the range is refused because it touches the upper half. */
  lemma UserAcceptanceMeansIff(start: nat, size: nat)
    requires start < WORD_LIMIT && size < WORD_LIMIT
    ensures UserAcceptanceMeans(start, size) <==> Trustworthy(start, size)
  {
    hide PathAt, TouchesUpperHalf, Visited;
    UpperVisit(start, size);
    if size == 0 {
    } else if TouchesUpperHalf(start, size) {
      var page :| Visited(page, start, size) && PathAt(page)[0] >= USER_ENTRIES;
    } else if start + size <= USER_END {
      AcceptanceMeansIff(start, size);
    } else {
      var good := iset page | Visited(page, start, size) :: PathAt(page);
      assert OnlyUser(good) && AllVisitedGood(good, start, size);
      var i := if start < USER_END then USER_END - start else 0;
      if CanonicalAddress(ByteAt(start, i)) { UpperAddress(start); }
      assert !EveryByteGood(good, start, size);
    }
  }

  lemma SamePagePath(a: nat)
    ensures PathAt(AlignDown(a)) == PathAt(a)
  {
    SamePage(a);
    Quotients(a);
    Quotients(AlignDown(a));
    hide AlignDown;
  }

  lemma SamePage(a: nat)
    ensures AlignDown(a) / 0x1000 == a / 0x1000
  {}

  lemma UpperAddress(a: nat)
    ensures PathAt(a)[0] >= USER_ENTRIES <==> a / USER_END % 2 == 1
    ensures WORD_LIMIT - USER_END <= a < WORD_LIMIT ==> PathAt(a)[0] >= USER_ENTRIES
  {
    var x := a / 0x80_0000_0000;
    assert a / USER_END == x / 256;
    UpperIndex(x);
    if WORD_LIMIT - USER_END <= a < WORD_LIMIT { assert x / 256 == 0x1_FFFF; }
  }

  lemma UpperIndex(x: nat)
    ensures x % 512 >= 256 <==> x / 256 % 2 == 1
  {}

  /** The closed form of the last disjunct. */
  lemma UpperVisit(start: nat, size: nat)
    ensures TouchesUpperHalf(start, size) <==>
      exists page :: Visited(page, start, size) && PathAt(page)[0] >= USER_ENTRIES
  {
    hide PathAt, AlignDown, RangeEnd;
    var begin := AlignDown(start);
    NextHalf(begin);
    if TouchesUpperHalf(start, size) {
      var page := if begin / USER_END % 2 == 1 then begin else (begin / USER_END + 1) * USER_END;
      UpperAddress(page);
      BeginsOnPage(start);
      assert Visited(page, start, size);
    }
    if page :| Visited(page, start, size) && PathAt(page)[0] >= USER_ENTRIES {
      UpperAddress(page);
      if begin / USER_END % 2 == 0 { LaterHalf(begin, page); }
    }
  }

  lemma BeginsOnPage(start: nat)
    ensures AlignDown(start) % PAGE_SIZE == 0
  {}

  lemma NextHalf(a: nat)
    ensures var b := (a / USER_END + 1) * USER_END; b / USER_END == a / USER_END + 1 && b % PAGE_SIZE == 0 && a < b
  {}

  lemma LaterHalf(a: nat, b: nat)
    requires a <= b && a / USER_END % 2 == 0 && b / USER_END % 2 == 1
    ensures (a / USER_END + 1) * USER_END <= b && (a / USER_END + 1) * USER_END % PAGE_SIZE == 0
  {}

  /** The last page of the address space: accepted without a single check. */
  lemma WrappingRangeExample()
    ensures RangeEnd(0xFFFF_FFFF_FFFF_F000, 1) == 0
    ensures !VisitsEveryByte(0xFFFF_FFFF_FFFF_F000, 1) && !AcceptanceMeans(0xFFFF_FFFF_FFFF_F000, 1)
  {
    RangeCheckSoundness(0xFFFF_FFFF_FFFF_F000, 1);
    AcceptanceMeansIff(0xFFFF_FFFF_FFFF_F000, 1);
  }

  /** An address no access can use: its check is that of the page at 0x1000. */
  lemma NonCanonicalExample()
    ensures PathAt(0x1_0000_0000_1000) == PathAt(0x1000) && !CanonicalAddress(0x1_0000_0000_1000)
    ensures forall page :: Visited(page, 0x1_0000_0000_1000, 1) <==> page == 0x1_0000_0000_1000
    ensures VisitsEveryByte(0x1_0000_0000_1000, 1) && !AcceptanceMeans(0x1_0000_0000_1000, 1)
    ensures !Trustworthy(0x1_0000_0000_1000, 1)
  {
    RangeCheckSoundness(0x1_0000_0000_1000, 1);
    AcceptanceMeansIff(0x1_0000_0000_1000, 1);
  }

  /** An address that is refused as long as users have nothing in the upper half, and that
      no access can use. Once they have, it is checked as the page at 0xFFFF800100000000. */
  lemma UpperRangeExample()
    ensures PathAt(0x8001_0000_0000) == PathAt(0xFFFF_8001_0000_0000) && PathAt(0x8001_0000_0000)[0] == USER_ENTRIES
    ensures !CanonicalAddress(0x8001_0000_0000) && CanonicalAddress(0xFFFF_8001_0000_0000)
    ensures Trustworthy(0x8001_0000_0000, 1) && !Sound(0x8001_0000_0000, 1) && !AcceptanceMeans(0x8001_0000_0000, 1)
  {
    assert Trustworthy(0x8001_0000_0000, 1) && !Sound(0x8001_0000_0000, 1);
    UpperPath();
    hide *;
    AcceptanceMeansIff(0x8001_0000_0000, 1);
  }

  lemma UpperPath()
    ensures PathAt(0x8001_0000_0000) == PathAt(0xFFFF_8001_0000_0000) && PathAt(0x8001_0000_0000)[0] == USER_ENTRIES
    ensures !CanonicalAddress(0x8001_0000_0000) && CanonicalAddress(0xFFFF_8001_0000_0000)
  {
    LowAlias();
    HighAlias();
  }

  lemma LowAlias()
    ensures PathAt(0x8001_0000_0000) == [256, 4, 0, 0]
  {}

  lemma HighAlias()
    ensures PathAt(0xFFFF_8001_0000_0000) == [256, 4, 0, 0]
  {
    KernelDigits(0xFFFF_8001_0000_0000);
    AboveStart();
    hide PathAt;
    assert forall j: nat :: 1 <= j < LEVELS ==> PathAt(0xFFFF_8001_0000_0000)[j] == PathAt(0x1_0000_0000)[j];
  }

  lemma AboveStart()
    ensures 0xFFFF_8001_0000_0000 - KERNEL_START == 0x1_0000_0000 && PathAt(0x1_0000_0000) == [0, 4, 0, 0]
  {}

  /** No page of the upper half of r is open to users. */
  ghost predicate UpperDenied(s: State, r: nat) {
    IsTable(s.mem, r) ==> forall i | USER_ENTRIES <= i < ENTRIES :: !s.mem[r].es[i].user
  }

  /** For a state, with or without user pages in the upper half: after a user check of a
      range that may be trusted in it, every byte is at a canonical address on an accepted
      page. */
  lemma AcceptedRange(s: State, r: nat, start: nat, size: nat, isWritable: bool)
    requires start < WORD_LIMIT && size < WORD_LIMIT
    requires Sound(start, size) || (UpperDenied(s, r) && Trustworthy(start, size))
    requires forall page | Visited(page, start, size) :: PageAccepted(s, r, PathAt(page), true, isWritable)
    ensures forall i :: 0 <= i < size ==>
      CanonicalAddress(ByteAt(start, i)) && PageAccepted(s, r, PathAt(ByteAt(start, i)), true, isWritable)
  {
    hide PathAt, PageAccepted, Trustworthy, Sound, UpperDenied;
    var good := iset q: seq<nat> | |q| == LEVELS && PageAccepted(s, r, q, true, isWritable);
    assert AllVisitedGood(good, start, size);
    if Sound(start, size) {
      AcceptanceMeansIff(start, size);
    } else {
      UserAcceptanceMeansIff(start, size);
      forall q | q in good ensures PagePath(q) { AcceptedIsLow(s, r, q, isWritable); }
    }
    assert EveryByteGood(good, start, size);
  }

  lemma AcceptedIsLow(s: State, r: nat, q: seq<nat>, isWritable: bool)
    requires UpperDenied(s, r) && |q| == LEVELS && PageAccepted(s, r, q, true, isWritable)
    ensures PagePath(q)
  {
    assert q[..1] == [] + [q[0]];
    WalkSnoc(s.mem, r, [], q[0]);
    assert Ent(s.mem, r, q[..1]).Some?;
  }

  lemma UpperIsDenied(s: State, r: nat)
    requires Inv(s) && r in s.roots
    ensures UpperDenied(s, r)
  {
    assert KernelTop(s.mem, r);
  }

  // ------------------------------------------- what acceptance guarantees

  /** An accepted page passes the handler's checks: a write to it is never a
      security violation. */
  lemma AcceptedPassesChecks(s: State, r: nat, q: seq<nat>)
    requires PageAccepted(s, r, q, true, true)
    ensures ChecksPass(s, r, q)
  {}

  /** One handler run removes every copy-on-write entry from the faulting path,
      and there was at least one.  The path is then writable exactly if the
      permission check accepted it, and otherwise fails the handler's checks. */
  lemma RepairFinishesPath(s: State, s': State, r: nat, q: seq<nat>)
    requires Inv(s) && Repaired(s, s', r, q)
    ensures CowEntries(s, r, q) != {} && CowEntries(s', r, q) == {}
    ensures HardwareAllows(s', r, q) <==> PageAccepted(s, r, q, true, true)
    ensures HardwareAllows(s', r, q) <==> ChecksPass(s', r, q)
  {
    hide Inv, FaultStep;
    var c: Repair :| c.root == r && c.q == q && FaultStep(s, s', c);
    InRepairs(s, s', c);
    forall j | 1 <= j <= LEVELS
      ensures Ent(s.mem, r, q[..j]).Some? && Ent(s'.mem, r, q[..j]).Some?
      ensures var e, e' := Ent(s.mem, r, q[..j]).value, Ent(s'.mem, r, q[..j]).value;
              !e'.cow && (e'.writable <==> e.EffectivelyWritable()) && e'.user == e.user
    {
      FaultClearsPath(s, s', c, j);
    }
    DeepestIsCow(s, s', c);
    assert LEVELS in CowEntries(s, r, q);
  }

  lemma InRepairs(s: State, s': State, c: Repair)
    requires Inv(s) && FaultStep(s, s', c)
    ensures c in Repairs(s, s') && CowReadOnly(s) && |c.q| == LEVELS
  {}

  lemma DeepestIsCow(s: State, s': State, c: Repair)
    requires FaultStep(s, s', c)
    ensures |c.q| == LEVELS && Ent(s.mem, c.root, c.q[..LEVELS]).Some? && Ent(s.mem, c.root, c.q[..LEVELS]).value.cow
  {
    FramesOnPath(s, c, LEVELS);
  }

  // ---------------------------------------------------------- a user write

  datatype WriteOutcome = Written | Killed | Pending

  /** The processor performs the store if its walk allows it. */
  method TryStore(k: CoW, r: nat, addr: nat, b: bv8) returns (done: bool)
    requires k.Valid() && r in k.roots
    modifies k.mem
    ensures k.Valid()
    ensures done <==> HardwareAllows(old(k.S()), r, PathAt(addr))
    ensures done ==> StoreStep(old(k.S()), k.S(), r, PathAt(addr), addr % PAGE_SIZE, b)
    ensures !done ==> k.S() == old(k.S())
  {
    hide HardwareAllows, Levels, Inv, PathAt;
    var q := PathAt(addr);
    var e4, e3, e2, e1 := ReadLevels(k, r, q);
    LevelsDecide(k.S(), r, q, e4, e3, e2, e1, true, true);
    if e4.None? || e3.None? || e2.None? || e1.None? { return false; }
    if !e4.value.user || !e3.value.user || !e2.value.user || !e1.value.user { return false; }
    if !e4.value.writable || !e3.value.writable || !e2.value.writable || !e1.value.writable { return false; }
    ghost var s := k.S();
    var f := e1.value.frame;
    StorePage(s, r, q);
    k.mem[f] := Data(k.mem[f].bytes[addr % PAGE_SIZE := b]);
    StoreKeepsInv(s, k.S(), r, q, addr % PAGE_SIZE, b);
    done := true;
  }

  /** A page the processor lets users write is a page of the user half. */
  lemma StorePage(s: State, r: nat, q: seq<nat>)
    requires Inv(s) && r in s.roots && |q| == LEVELS && HardwareAllows(s, r, q)
    ensures PagePath(q) && Mapped(s, r, q) && !Ent(s.mem, r, q).value.cow
  {
    UserIsLow(s, r, q);
    AllowedIsWritable(s, r, q);
  }

  /** A user-mode write, faulting and retrying as often as it takes: at most one
      repair, then it is performed or the process is killed.  It stays pending, with
      nothing changed, exactly if the handler lacks a frame or a mapping for one of the
      copy-on-write entries of a path that passes its checks.  Any canonical address will do;
      the processor refuses the others before it looks at a table. */
  method UserWrite(k: CoW, r: nat, addr: nat, b: bv8, mapped: seq<bool>) returns (outcome: WriteOutcome)
    requires k.Valid() && r in k.roots && CanonicalAddress(addr) && |mapped| == LEVELS
    modifies k.mem, k.phys, k.phys.bitmap, k.phys.refCount
    ensures k.Valid()
    ensures outcome != Pending ==> WriteStep(old(k.S()), k.S(), r, PathAt(addr), addr % PAGE_SIZE, b)
    ensures outcome == Pending ==> Unchanged(old(k.S()), k.S())
    ensures outcome == Pending <==>
      ChecksPass(old(k.S()), r, PathAt(addr)) && !EnoughFor(old(k.S()), r, PathAt(addr), mapped)
    ensures outcome == Written <==>
      PageAccepted(old(k.S()), r, PathAt(addr), true, true) && EnoughFor(old(k.S()), r, PathAt(addr), mapped)
  {
    hide Inv, StoreStep, ExitStep, HardwareAllows, ChecksPass, Unchanged, Repaired, PageAccepted, PathAt, EnoughFor,
      CowEntries, LeafIsCow;
    ghost var s0, q := k.S(), PathAt(addr);
    ghost var page := addr % PAGE_SIZE;
    var done := TryStore(k, r, addr, b);
    if done {
      AllowedIsAccepted(s0, r, q);
      AllowedNeedsNothing(s0, r, q, mapped);
      return Written;
    }
    UserWriteChecks(s0, r, q);
    var fault := k.PageFault(r, addr, USER_WRITE, mapped);
    if fault == OutOfMemory { return Pending; }
    if fault == Violation {
      RejectedIsNotAccepted(s0, r, q);
      return Killed;
    }
    ghost var s1 := k.S();
    RepairFinishesPath(s0, s1, r, q);
    done := TryStore(k, r, addr, b);
    if done { return Written; }
    UserWriteChecks(s1, r, q);
    fault := k.PageFault(r, addr, USER_WRITE, mapped);
    assert fault == Violation;
    outcome := Killed;
  }

  lemma AllowedIsAccepted(s: State, r: nat, q: seq<nat>)
    requires HardwareAllows(s, r, q)
    ensures PageAccepted(s, r, q, true, true)
  {}

  /** A path the processor lets writes through has no copy-on-write entry. */
  lemma AllowedNeedsNothing(s: State, r: nat, q: seq<nat>, mapped: seq<bool>)
    requires Inv(s) && r in s.roots && |q| == LEVELS && HardwareAllows(s, r, q)
    ensures CowEntries(s, r, q) == {} && EnoughFor(s, r, q, mapped)
  {
    UserIsLow(s, r, q);
    forall j | 1 <= j <= |q| ensures !Ent(s.mem, r, q[..j]).value.cow {
      assert Selects(s, r, q[..j], Ent(s.mem, r, q[..j]).value);
    }
  }

  lemma RejectedIsNotAccepted(s: State, r: nat, q: seq<nat>)
    requires !ChecksPass(s, r, q) || HardwareAllows(s, r, q)
    ensures !HardwareAllows(s, r, q) ==> !PageAccepted(s, r, q, true, true)
  {}

  /** Check and write: a write to a byte of a range that the user check accepted never
      kills the process. */
  method CheckedWrite(k: CoW, r: nat, start: nat, size: nat, i: nat, b: bv8, mapped: seq<bool>)
    returns (accepted: bool, outcome: WriteOutcome)
    requires k.Valid() && r in k.roots && start < WORD_LIMIT && i < size < WORD_LIMIT && Trustworthy(start, size)
    requires |mapped| == LEVELS
    modifies k.mem, k.phys, k.phys.bitmap, k.phys.refCount
    ensures k.Valid()
    ensures accepted && outcome == Written ==>
      WriteStep(old(k.S()), k.S(), r, PathAt(ByteAt(start, i)), ByteAt(start, i) % PAGE_SIZE, b)
    ensures accepted <==>
      forall page | Visited(page, start, size) :: PageAccepted(old(k.S()), r, PathAt(page), true, true)
    ensures accepted ==>
      outcome == if EnoughFor(old(k.S()), r, PathAt(ByteAt(start, i)), mapped) then Written else Pending
    ensures accepted && outcome == Pending ==> Unchanged(old(k.S()), k.S())
    ensures !accepted ==> outcome == Pending && k.S() == old(k.S())
  {
    hide Inv, PathAt, PageAccepted, WriteStep, Unchanged, Trustworthy, EnoughFor;
    accepted := VirtualRangeConditionCheck(k, r, start, size, true, true, false);
    if !accepted { return false, Pending; }
    UpperIsDenied(k.S(), r);
    AcceptedRange(k.S(), r, start, size, true);
    AcceptedPassesChecks(k.S(), r, PathAt(ByteAt(start, i)));
    outcome := UserWrite(k, r, ByteAt(start, i), b, mapped);
  }

  // --------------------------------------------------- how long it holds

  ghost predicate Granted(v: Views, r: nat, q: seq<nat>) {
    (r, q) in v && v[(r, q)].rights.user && v[(r, q)].rights.writable
  }

  /** The check decides what the views say. */
  lemma AcceptedIsView(s: State, r: nat, q: seq<nat>)
    requires Inv(s) && r in s.roots && PagePath(q)
    ensures PageAccepted(s, r, q, true, true) <==> Granted(AllViews(s), r, q)
  {
    InViews(s, r, q);
    assert q[..LEVELS] == q;
    if PageAccepted(s, r, q, true, true) {
      assert Reaches(s, r, q, Walk(s.mem, r, q).value);
    }
  }

  /** Events that take an accepted page away: its process exits or is killed, or the page
      itself is unmapped or given other rights. */
  ghost predicate TakesAway(s: State, ev: Event, r: nat, q: seq<nat>) {
    match ev
    case Exit(gone) => gone == r
    case Write(w, q', _, _) => w == r && !PageAccepted(s, r, q', true, true)
    case Remap(w, q', a) => w == r && q' == q && !(a.user && a.writable)
    case Unmap(w, q') => w == r && q' == q
    case _ => false
  }

  /** Acceptance lasts: whatever any process does, the page stays accepted. */
  lemma AcceptanceLasts(s: State, ev: Event, s': State, r: nat, q: seq<nat>)
    requires Inv(s) && Next(s, ev, s') && r in s.roots && PagePath(q)
    requires PageAccepted(s, r, q, true, true) && !TakesAway(s, ev, r, q)
    ensures PageAccepted(s', r, q, true, true)
  {
    hide Inv, PageAccepted, AllViews, WriteStep, MapStep, Eager;
    StepRefines(s, ev, s');
    AcceptedIsView(s, r, q);
    match ev {
      case Write(w, q', offset, b) => if w == r { WriteIsStore(s, s', r, q', offset, b); }
      case Map(w, q', bytes, a) => MapRefines(s, s', w, q', bytes, a);
      case Fork(parent, child) => ChildIsNew(s, s', parent, child, r);
      case _ =>
    }
    EagerKeeps(AllViews(s), ev, r, q);
    ViewIsAccepted(s', r, q);
  }

  lemma EagerKeeps(v: Views, ev: Event, r: nat, q: seq<nat>)
    requires Granted(v, r, q)
    requires match ev
      case Exit(gone) => gone != r
      case Write(w, q', offset, _) => w == r ==> Granted(v, r, q') && offset < |v[(r, q')].bytes|
      case Map(w, q', _, _) => (w, q') !in v
      case Remap(w, q', a) => w == r && q' == q ==> a.user && a.writable
      case Unmap(w, q') => (w, q') != (r, q)
      case Fork(_, child) => child != r
      case _ => true
    ensures Granted(Eager(v, ev), r, q)
  {
    match ev {
      case Fork(parent, child) => DuplicatedAt(v, parent, child, r, q);
      case Exit(gone) => RemovedAt(v, gone, r, q);
      case Write(w, q', offset, b) => RemovedAt(v, w, r, q);
      case Unmap(w, q') => UnmappedAt(v, w, q', r, q);
      case _ =>
    }
  }

  lemma ChildIsNew(s: State, s': State, parent: nat, child: nat, r: nat)
    requires Inv(s) && ForkStep(s, s', parent, child) && r in s.roots
    ensures child != r
  {}

  lemma ViewIsAccepted(s: State, r: nat, q: seq<nat>)
    requires Granted(AllViews(s), r, q)
    ensures PageAccepted(s, r, q, true, true)
  {
    InViews(s, r, q);
  }

  lemma WriteIsStore(s: State, s': State, r: nat, q: seq<nat>, offset: nat, b: bv8)
    requires Inv(s) && WriteStep(s, s', r, q, offset, b) && PageAccepted(s, r, q, true, true)
    ensures Granted(AllViews(s), r, q) && offset < |AllViews(s)[(r, q)].bytes|
  {
    UserIsLow(s, r, q);
    AcceptedIsView(s, r, q);
    InViews(s, r, q);
  }
}
