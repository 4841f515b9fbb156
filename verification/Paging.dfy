/**
 Virtual addresses, the recursive mapping, and the 64-bit layout of page-table
 entries.  The tables are four levels of 512 entries over 4 KiB pages, as in
 section 4.5 of the Intel SDM, Volume 3A.
 */
module Paging {
  import opened Basics
  import opened PageTables

  // -------------------------------------------------------- table addresses

  const P4_TABLE_VIRTUAL_ADDRESS: bv64 := 0xFFFF_FFFF_FFFF_F000

  function GetP4Index(a: bv64): bv64 { (a >> 39) & 0x1FF }
  function GetP3Index(a: bv64): bv64 { (a >> 30) & 0x1FF }
  function GetP2Index(a: bv64): bv64 { (a >> 21) & 0x1FF }
  function GetP1Index(a: bv64): bv64 { (a >> 12) & 0x1FF }

  /** `walkTo`: the virtual address of the next table, by pointer arithmetic alone. */
  function WalkTo(table: bv64, index: bv64): bv64 {
    (table << 9) | (index << 12)
  }

  function ToCanonical(a: bv64): bv64 {
    if a & 0x8000_0000_0000 == 0 then a & 0xFFFF_FFFF_FFFF else a | 0xFFFF_0000_0000_0000
  }

  function P3Table(a: bv64): bv64 { WalkTo(P4_TABLE_VIRTUAL_ADDRESS, GetP4Index(a)) }
  function P2Table(a: bv64): bv64 { WalkTo(P3Table(a), GetP3Index(a)) }
  function P1Table(a: bv64): bv64 { WalkTo(P2Table(a), GetP2Index(a)) }
  function P0Table(a: bv64): bv64 { ToCanonical(WalkTo(P1Table(a), GetP1Index(a))) }

  /** An index as a number. */
  function Index(x: bv64): (i: nat)
    ensures i < ENTRIES
  {
    (x & 0x1FF) as nat
  }

  /** The path the processor takes for address a. */
  function PathOf(a: bv64): seq<nat> {
    [Index(GetP4Index(a)), Index(GetP3Index(a)), Index(GetP2Index(a)), Index(GetP1Index(a))]
  }

  /** The processor's translation of the page of a with top-level table p4. */
  function Translate(mem: seq<Frame>, p4: nat, a: bv64): Option<nat> {
    Walk(mem, p4, PathOf(a))
  }

  // ----------------------------------------------- the recursive mapping

  predicate Indices(a: bv64, i4: bv64, i3: bv64, i2: bv64, i1: bv64) {
    GetP4Index(a) == i4 && GetP3Index(a) == i3 && GetP2Index(a) == i2 && GetP1Index(a) == i1
  }

  lemma P3Indices(a: bv64)
    ensures Indices(P3Table(a), 511, 511, 511, GetP4Index(a))
  {}

  lemma P2Indices(a: bv64)
    ensures Indices(P2Table(a), 511, 511, GetP4Index(a), GetP3Index(a))
  {}

  lemma P1Indices(a: bv64)
    ensures Indices(P1Table(a), 511, GetP4Index(a), GetP3Index(a), GetP2Index(a))
  {}

  lemma StepTo2(i4: bv64, i3: bv64)
    ensures WalkTo(0xFFFF_FFFF_FFE0_0000 | (i4 << 12), i3) == 0xFFFF_FFFF_C000_0000 | (i4 << 21) | (i3 << 12)
  {}

  lemma StepTo1(i4: bv64, i3: bv64, i2: bv64)
    ensures WalkTo(0xFFFF_FFFF_C000_0000 | (i4 << 21) | (i3 << 12), i2)
         == 0xFFFF_FF80_0000_0000 | (i4 << 30) | (i3 << 21) | (i2 << 12)
  {}

  lemma StepTo0(i4: bv64, i3: bv64, i2: bv64, i1: bv64)
    ensures WalkTo(0xFFFF_FF80_0000_0000 | (i4 << 30) | (i3 << 21) | (i2 << 12), i1)
         == 0xFFFF_0000_0000_0000 | ((i4 << 39) | (i3 << 30) | (i2 << 21) | (i1 << 12))
  {}

  lemma StepTo3(i4: bv64)
    ensures WalkTo(P4_TABLE_VIRTUAL_ADDRESS, i4) == 0xFFFF_FFFF_FFE0_0000 | (i4 << 12)
  {}

  lemma Rejoined(a: bv64)
    ensures (GetP4Index(a) << 39) | (GetP3Index(a) << 30) | (GetP2Index(a) << 21) | (GetP1Index(a) << 12)
      == a & 0xFFFF_FFFF_F000
  {}

  lemma P0Joined(a: bv64)
    ensures WalkTo(P1Table(a), GetP1Index(a)) == 0xFFFF_0000_0000_0000 | (a & 0xFFFF_FFFF_F000)
  {
    hide WalkTo, GetP4Index, GetP3Index, GetP2Index, GetP1Index;
    var i4, i3, i2, i1 := GetP4Index(a), GetP3Index(a), GetP2Index(a), GetP1Index(a);
    StepTo3(i4);
    StepTo2(i4, i3);
    StepTo1(i4, i3, i2);
    StepTo0(i4, i3, i2, i1);
    Rejoined(a);
  }

  lemma CanonicalPage(a: bv64)
    requires ToCanonical(a) == a
    ensures ToCanonical(0xFFFF_0000_0000_0000 | (a & 0xFFFF_FFFF_F000)) == a & 0xFFFF_FFFF_FFFF_F000
  {
    if a & 0x8000_0000_0000 == 0 {
      assert a == a & 0xFFFF_FFFF_FFFF;
    } else {
      assert a == a | 0xFFFF_0000_0000_0000;
    }
  }

  /** Four steps of `walkTo` and `toCanonical` lead to the page itself. */
  lemma FourthStepIsThePage(a: bv64)
    requires ToCanonical(a) == a
    ensures P0Table(a) == a & 0xFFFF_FFFF_FFFF_F000
  {
    hide P1Table, GetP1Index, WalkTo, ToCanonical;
    P0Joined(a);
    CanonicalPage(a);
  }

  lemma ThroughTheTop(mem: seq<Frame>, p4: nat, p: seq<nat>)
    requires Lookup(mem, p4, RECURSIVE_ENTRY).Some? && Lookup(mem, p4, RECURSIVE_ENTRY).value.frame == p4
    ensures Walk(mem, p4, [RECURSIVE_ENTRY] + p) == Walk(mem, p4, p)
  {
    WalkAppend(mem, p4, [RECURSIVE_ENTRY], p);
    assert [] + [RECURSIVE_ENTRY] == [RECURSIVE_ENTRY];
    WalkSnoc(mem, p4, [], RECURSIVE_ENTRY);
  }

  lemma SmallIndex(x: bv64)
    requires x < 512
    ensures x & 0x1FF == x
  {}

  lemma TopIndex()
    ensures Index(511) == RECURSIVE_ENTRY
  {}

  /** If the last entry of the top table maps the top table itself, the address
      computed by k steps of `walkTo` translates to the table at level k of the
      walk for a, for every address a. */
  lemma RecursiveMapping(mem: seq<Frame>, p4: nat, a: bv64)
    requires Lookup(mem, p4, RECURSIVE_ENTRY).Some? && Lookup(mem, p4, RECURSIVE_ENTRY).value.frame == p4
    ensures Translate(mem, p4, P4_TABLE_VIRTUAL_ADDRESS) == Some(p4)
    ensures Translate(mem, p4, P3Table(a)) == Walk(mem, p4, PathOf(a)[..1])
    ensures Translate(mem, p4, P2Table(a)) == Walk(mem, p4, PathOf(a)[..2])
    ensures Translate(mem, p4, P1Table(a)) == Walk(mem, p4, PathOf(a)[..3])
  {
    var i4, i3, i2 := PathOf(a)[0], PathOf(a)[1], PathOf(a)[2];
    TablePaths(a);
    var R := RECURSIVE_ENTRY;
    assert PathOf(a)[..1] == [i4] && PathOf(a)[..2] == [i4, i3] && PathOf(a)[..3] == [i4, i3, i2];
    assert [R] + [i4] == [R, i4] && [R] + [R, i4] == [R, R, i4] && [R] + [R, R, i4] == [R, R, R, i4];
    assert [R] + [i4, i3] == [R, i4, i3] && [R] + [R, i4, i3] == [R, R, i4, i3];
    assert [R] + [i4, i3, i2] == [R, i4, i3, i2];
    assert [R] + [] == [R] && [R] + [R] == [R, R] && [R] + [R, R] == [R, R, R] && [R] + [R, R, R] == [R, R, R, R];
    ThroughTheTop(mem, p4, []); ThroughTheTop(mem, p4, [R]);
    ThroughTheTop(mem, p4, [R, R]); ThroughTheTop(mem, p4, [R, R, R]);
    ThroughTheTop(mem, p4, [i4]); ThroughTheTop(mem, p4, [R, i4]); ThroughTheTop(mem, p4, [R, R, i4]);
    ThroughTheTop(mem, p4, [i4, i3]); ThroughTheTop(mem, p4, [R, i4, i3]);
    ThroughTheTop(mem, p4, [i4, i3, i2]);
  }

  lemma TablePaths(a: bv64)
    ensures PathOf(P4_TABLE_VIRTUAL_ADDRESS) == [RECURSIVE_ENTRY, RECURSIVE_ENTRY, RECURSIVE_ENTRY, RECURSIVE_ENTRY]
    ensures PathOf(P3Table(a)) == [RECURSIVE_ENTRY, RECURSIVE_ENTRY, RECURSIVE_ENTRY, PathOf(a)[0]]
    ensures PathOf(P2Table(a)) == [RECURSIVE_ENTRY, RECURSIVE_ENTRY, PathOf(a)[0], PathOf(a)[1]]
    ensures PathOf(P1Table(a)) == [RECURSIVE_ENTRY, PathOf(a)[0], PathOf(a)[1], PathOf(a)[2]]
  {
    TopIndex();
    P4Indices();
    P3Indices(a);
    P2Indices(a);
    P1Indices(a);
  }

  lemma P4Indices()
    ensures Indices(P4_TABLE_VIRTUAL_ADDRESS, 511, 511, 511, 511)
  {}

  /** The end of the kernel's allocation area, as start-up computes it. */
  function KernelAreaEnd(): bv64 {
    WalkTo(WalkTo(WalkTo(WalkTo(P4_TABLE_VIRTUAL_ADDRESS, 511), 0), 0), 0) - 4096
  }

  /** No table address that `walkTo` can produce lies in the kernel's area. */
  lemma KernelAreaBelowTables(a: bv64)
    ensures KernelAreaEnd() == 0xFFFF_FF7F_FFFF_F000
    ensures P1Table(a) > KernelAreaEnd() && P2Table(a) > KernelAreaEnd() && P3Table(a) > KernelAreaEnd()
    ensures P4_TABLE_VIRTUAL_ADDRESS > KernelAreaEnd()
  {}

  // ------------------------------------------------- addresses as numbers

  const USER_END: nat := 0x8000_0000_0000

  /** The path of a virtual address given as a number. */
  function PathAt(addr: nat): (q: seq<nat>)
    ensures |q| == LEVELS && forall j :: 0 <= j < LEVELS ==> q[j] < ENTRIES
  {
    [addr / 0x80_0000_0000 % 512, addr / 0x4000_0000 % 512, addr / 0x20_0000 % 512, addr / 0x1000 % 512]
  }

  /** Addresses of the lower canonical half use the lower half of the top table. */
  lemma UserHalf(addr: nat)
    requires addr < USER_END
    ensures PathAt(addr)[0] < USER_ENTRIES
  {}

  /** Distinct pages of the lower half have different paths. */
  lemma PathInjective(a: nat, b: nat)
    requires a < USER_END && b < USER_END && a % PAGE_SIZE == 0 && b % PAGE_SIZE == 0
    requires PathAt(a) == PathAt(b)
    ensures a == b
  {
    assert PathAt(a)[0] == PathAt(b)[0] && PathAt(a)[1] == PathAt(b)[1] && PathAt(a)[2] == PathAt(b)[2]
      && PathAt(a)[3] == PathAt(b)[3];
    Digits(a);
    Digits(b);
  }

  lemma Digits(a: nat)
    requires a < USER_END && a % PAGE_SIZE == 0
    ensures var q := PathAt(a); a == q[0] * 0x80_0000_0000 + q[1] * 0x4000_0000 + q[2] * 0x20_0000 + q[3] * 0x1000
  {
    assert a == a / 0x1000 * 0x1000;
    assert a / 0x20_0000 == a / 0x1000 / 512;
    assert a / 0x4000_0000 == a / 0x20_0000 / 512;
    assert a / 0x80_0000_0000 == a / 0x4000_0000 / 512;
  }

  /** The kernel half, up to the addresses of the tables themselves. */
  const KERNEL_START: nat := 0xFFFF_8000_0000_0000
  const KERNEL_END: nat := 0xFFFF_FF80_0000_0000

  lemma KernelQuotients(a: nat, b: nat)
    requires a == b + KERNEL_START
    ensures a / 0x80_0000_0000 == b / 0x80_0000_0000 + 0x1FF_FF00
    ensures a / 0x4000_0000 == b / 0x4000_0000 + 512 * 0x1FF_FF00
    ensures a / 0x20_0000 == b / 0x20_0000 + 512 * 0x3_FFFE_0000
    ensures a / 0x1000 == b / 0x1000 + 512 * 0x7FF_FC00_0000
  {}

  lemma SameRemainder(x: nat, y: nat, k: nat)
    requires x == y + 512 * k
    ensures x % 512 == y % 512
  {}

  /** A kernel address and the address as far above 0 have the same indices below the top. */
  lemma KernelDigits(a: nat)
    requires KERNEL_START <= a < KERNEL_END
    ensures a - KERNEL_START < USER_END && PathAt(a)[0] == PathAt(a - KERNEL_START)[0] + USER_ENTRIES
    ensures USER_ENTRIES <= PathAt(a)[0] < RECURSIVE_ENTRY
    ensures forall j :: 1 <= j < LEVELS ==> PathAt(a)[j] == PathAt(a - KERNEL_START)[j]
  {
    var b: nat := a - KERNEL_START;
    KernelQuotients(a, b);
    SameRemainder(a / 0x4000_0000, b / 0x4000_0000, 0x1FF_FF00);
    SameRemainder(a / 0x20_0000, b / 0x20_0000, 0x3_FFFE_0000);
    SameRemainder(a / 0x1000, b / 0x1000, 0x7FF_FC00_0000);
    var x := b / 0x80_0000_0000;
    assert x < 255;
    assert (x + 0x1FF_FF00) % 512 == x + 256;
  }

  /** Distinct pages of the kernel half have different paths. */
  lemma KernelPathInjective(a: nat, b: nat)
    requires KERNEL_START <= a < KERNEL_END && KERNEL_START <= b < KERNEL_END
    requires a % PAGE_SIZE == 0 && b % PAGE_SIZE == 0 && PathAt(a) == PathAt(b)
    ensures a == b
  {
    hide PathAt;
    var a', b' := a - KERNEL_START, b - KERNEL_START;
    KernelDigits(a);
    KernelDigits(b);
    forall j: nat | j < LEVELS ensures PathAt(a')[j] == PathAt(b')[j] {
      assert PathAt(a)[j] == PathAt(b)[j];
      if j == 0 { assert PathAt(a)[0] == PathAt(b)[0]; }
    }
    assert PathAt(a') == PathAt(b');
    SamePageOffset(a);
    SamePageOffset(b);
    PathInjective(a', b');
  }

  lemma SamePageOffset(a: nat)
    requires a >= KERNEL_START
    ensures (a - KERNEL_START) % PAGE_SIZE == a % PAGE_SIZE
  {}

  function Succ(w: bv64): bv64 { w + 1 }

  /** A number as a word: n increments of 0. */
  function WordOf(n: nat): bv64 {
    if n == 0 then 0 else Succ(WordOf(n - 1))
  }

  lemma WordStep(n: nat)
    ensures WordOf(n + 1) == Succ(WordOf(n))
  {}

  lemma SmallNext(w: bv64)
    requires w as nat < 511
    ensures (w + 1) as nat == w as nat + 1 && w + 1 < 512
  {}

  lemma {:induction false} SmallWord(d: nat)
    requires d < 512
    ensures WordOf(d) as nat == d && WordOf(d) < 512
  {
    if d > 0 {
      SmallWord(d - 1);
      SmallNext(WordOf(d - 1));
    }
  }

  lemma SmallWordsDiffer(d: nat, e: nat)
    requires d < 512 && e < 512
    ensures WordOf(d) == WordOf(e) <==> d == e
  {
    SmallWord(d);
    SmallWord(e);
  }

  lemma SmallOnes()
    ensures WordOf(0) == 0 && WordOf(1) == 1 && WordOf(7) == 7 && WordOf(511) == 0x1FF
  {
    SmallWord(7);
    SmallWord(511);
  }

  function LowNine(w: bv64): bv64 { w & 0x1FF }
  function DropNine(w: bv64): bv64 { w >> 9 }
  function LowThree(w: bv64): bv64 { w & 7 }
  function DropThree(w: bv64): bv64 { w >> 3 }

  lemma NoCarry(w: bv64)
    requires LowNine(w) != 0x1FF
    ensures LowNine(Succ(w)) == Succ(LowNine(w)) && DropNine(Succ(w)) == DropNine(w)
  {}

  lemma Carry(w: bv64)
    requires LowNine(w) == 0x1FF && DropNine(w) != 0x7F_FFFF_FFFF_FFFF
    ensures LowNine(Succ(w)) == 0 && DropNine(Succ(w)) == Succ(DropNine(w))
  {}

  lemma ZeroDrops()
    ensures LowNine(0) == 0 && DropNine(0) == 0 && LowThree(0) == 0 && DropThree(0) == 0
  {}

  /** 9 k + 1 ones, and the number after the one they stand for. */
  function Ones(k: nat): bv64 {
    if k == 0 then 1 else (Ones(k - 1) << 9) | 0x1FF
  }

  function AfterOnes(k: nat): nat {
    if k == 0 then 2 else 512 * AfterOnes(k - 1)
  }

  lemma SixTimesNine()
    ensures Ones(6) == 0x7F_FFFF_FFFF_FFFF && AfterOnes(6) == 0x80_0000_0000_0000
  {
    assert Ones(1) == 0x3FF && Ones(2) == 0x7_FFFF && Ones(3) == 0xFFF_FFFF;
    assert Ones(4) == 0x1F_FFFF_FFFF && Ones(5) == 0x3FFF_FFFF_FFFF;
    assert AfterOnes(2) == 0x8_0000 && AfterOnes(4) == 0x20_0000_0000;
  }

  lemma {:induction false} OnesFit(k: nat)
    requires 0 < k <= 6
    ensures LowNine(Ones(k)) == 0x1FF && DropNine(Ones(k)) == Ones(k - 1)
  {
    SixTimesNine();
    OnesBelow(k - 1);
    ShiftedIn(Ones(k - 1));
  }

  lemma {:induction false} OnesBelow(k: nat)
    requires k < 6
    ensures Ones(k) >> 46 == 0
  {
    if k > 0 {
      OnesBelow(k - 1);
      var o := [Ones(0), Ones(1), Ones(2), Ones(3), Ones(4), Ones(5)];
    }
  }

  lemma ShiftedIn(o: bv64)
    requires o >> 55 == 0
    ensures ((o << 9) | 0x1FF) >> 9 == o && ((o << 9) | 0x1FF) & 0x1FF == 0x1FF
  {}

  /** Numbers below the all-ones pattern do not become it. */
  lemma {:induction false} NotOnes(n: nat, k: nat)
    requires k <= 6 && n + 1 < AfterOnes(k) && n < WORD_LIMIT
    ensures WordOf(n) != Ones(k)
    decreases n, k + 1
  {
    hide LowNine, DropNine;
    SmallOnes();
    if k > 0 {
      var m, r := n / 512, n % 512;
      NineBits(n, m, r);
      OnesFit(k);
      SmallWordsDiffer(r, 511);
      if r == 511 { NotOnes(m, k - 1); }
    }
  }

  /** Masking nine bits is the remainder by 512, shifting them out is the quotient. */
  lemma {:induction false} NineBits(n: nat, m: nat, r: nat)
    requires n < WORD_LIMIT && n == 512 * m + r && r < 512
    ensures LowNine(WordOf(n)) == WordOf(r) && DropNine(WordOf(n)) == WordOf(m)
    decreases n, 0
  {
    hide WordOf, Succ, Ones, LowNine, DropNine, AfterOnes;
    SmallOnes();
    ZeroDrops();
    if n > 0 {
      var w := WordOf(n - 1);
      WordStep(n - 1);
      if r == 0 {
        NineBits(n - 1, m - 1, 511);
        SixTimesNine();
        NotOnes(m - 1, 6);
        Carry(w);
        WordStep(m - 1);
      } else {
        NineBits(n - 1, m, r - 1);
        SmallWordsDiffer(r - 1, 511);
        NoCarry(w);
        WordStep(r - 1);
      }
    }
  }

  lemma NoCarry3(w: bv64)
    requires LowThree(w) != 7
    ensures LowThree(Succ(w)) == Succ(LowThree(w)) && DropThree(Succ(w)) == DropThree(w)
  {}

  lemma Carry3(w: bv64)
    requires LowThree(w) == 7 && DropNine(w) != 0x7F_FFFF_FFFF_FFFF
    ensures LowThree(Succ(w)) == 0 && DropThree(Succ(w)) == Succ(DropThree(w))
  {}

  /** Likewise for three bits. */
  lemma {:induction false} ThreeBits(n: nat, m: nat, r: nat)
    requires n < 0x80_0000_0000_0000 && n == 8 * m + r && r < 8
    ensures LowThree(WordOf(n)) == WordOf(r) && DropThree(WordOf(n)) == WordOf(m)
    decreases n
  {
    hide WordOf, Succ, Ones, LowNine, DropNine, LowThree, DropThree, AfterOnes;
    SmallOnes();
    ZeroDrops();
    if n > 0 {
      var w := WordOf(n - 1);
      WordStep(n - 1);
      if r == 0 {
        ThreeBits(n - 1, m - 1, 7);
        SixTimesNine();
        TopIsClear(n - 1);
        Carry3(w);
        WordStep(m - 1);
      } else {
        ThreeBits(n - 1, m, r - 1);
        SmallWordsDiffer(r - 1, 7);
        NoCarry3(w);
        WordStep(r - 1);
      }
    }
  }

  lemma TopIsClear(n: nat)
    requires n < 0x80_0000_0000_0000
    ensures DropNine(WordOf(n)) != 0x7F_FFFF_FFFF_FFFF
  {
    hide WordOf, Ones, DropNine, LowNine, AfterOnes;
    var m, r := n / 512, n % 512;
    NineBits(n, m, r);
    SixTimesNine();
    NotOnes(m, 6);
  }

  function PageOf(w: bv64): bv64 { w >> 12 }

  lemma PageOfDrops(w: bv64)
    ensures PageOf(w) == DropThree(DropNine(w))
  {}

  /** Shifting out the offset in a page. */
  lemma PageNumber(n: nat, m: nat, h: nat, r: nat)
    requires n < WORD_LIMIT && n == 512 * (8 * m + h) + r && h < 8 && r < 512
    ensures PageOf(WordOf(n)) == WordOf(m)
  {
    hide WordOf, DropNine, DropThree, LowNine, LowThree, PageOf;
    NineBits(n, 8 * m + h, r);
    ThreeBits(8 * m + h, m, h);
    PageOfDrops(WordOf(n));
  }

  /** The code's indices are taken from the page number nine bits at a time. */
  lemma IndicesFrom(w: bv64)
    ensures GetP1Index(w) == LowNine(PageOf(w)) && GetP2Index(w) == LowNine(DropNine(PageOf(w)))
    ensures GetP3Index(w) == LowNine(DropNine(DropNine(PageOf(w))))
    ensures GetP4Index(w) == LowNine(DropNine(DropNine(DropNine(PageOf(w)))))
  {}

  lemma NextIndex(w: bv64, n: nat, m: nat, i: nat)
    requires w == WordOf(n) && n < WORD_LIMIT && n == 512 * m + i && i < 512
    ensures Index(LowNine(w)) == i && DropNine(w) == WordOf(m)
  {
    hide WordOf, DropNine, LowNine, Index;
    NineBits(n, m, i);
    SmallWord(i);
    IndexOfSmall(WordOf(i));
  }

  lemma IndexOfSmall(x: bv64)
    requires x < 512
    ensures Index(x) == x as nat
  {
    SmallIndex(x);
  }

  lemma Quotients(n: nat)
    ensures n / 0x20_0000 == n / 0x1000 / 512 && n / 0x4000_0000 == n / 0x20_0000 / 512
    ensures n / 0x80_0000_0000 == n / 0x4000_0000 / 512
  {}

  /** An address is its offset and its four indices, and what lies above them. */
  lemma DigitsOf(addr: nat) returns (n1: nat, n2: nat, n3: nat, n4: nat, top: nat, h: nat, r: nat)
    ensures addr == 512 * (8 * n1 + h) + r && h < 8 && r < 512
    ensures var q := PathAt(addr);
      n1 == 512 * n2 + q[3] && n2 == 512 * n3 + q[2] && n3 == 512 * n4 + q[1] && n4 == 512 * top + q[0]
  {
    n1, n2, n3, n4 := addr / 0x1000, addr / 0x20_0000, addr / 0x4000_0000, addr / 0x80_0000_0000;
    top, h, r := n4 / 512, addr / 512 % 8, addr % 512;
    assert n1 == addr / 512 / 8;
    assert n2 == n1 / 512 && n3 == n2 / 512 && n4 == n3 / 512;
  }

  /** The shifts and masks the code applies to a 64-bit address select the indices that
      division gives. */
  lemma SamePath(addr: nat)
    requires addr < WORD_LIMIT
    ensures PathOf(WordOf(addr)) == PathAt(addr)
  {
    hide WordOf, Index, PathAt, GetP1Index, GetP2Index, GetP3Index, GetP4Index, PageOf, LowNine, DropNine;
    var w, q := WordOf(addr), PathAt(addr);
    var n1, n2, n3, n4, top, h, r := DigitsOf(addr);
    PageNumber(addr, n1, h, r);
    IndicesFrom(w);
    NextIndex(PageOf(w), n1, n2, q[3]);
    NextIndex(DropNine(PageOf(w)), n2, n3, q[2]);
    NextIndex(DropNine(DropNine(PageOf(w))), n3, n4, q[1]);
    NextIndex(DropNine(DropNine(DropNine(PageOf(w)))), n4, top, q[0]);
  }

  /** The addresses the kernel computes for the tables of an address lead to the tables
      on the path of that address. */
  lemma TablesOfAddress(mem: seq<Frame>, p4: nat, addr: nat)
    requires Lookup(mem, p4, RECURSIVE_ENTRY).Some? && Lookup(mem, p4, RECURSIVE_ENTRY).value.frame == p4
    requires addr < WORD_LIMIT
    ensures Translate(mem, p4, P3Table(WordOf(addr))) == Walk(mem, p4, PathAt(addr)[..1])
    ensures Translate(mem, p4, P2Table(WordOf(addr))) == Walk(mem, p4, PathAt(addr)[..2])
    ensures Translate(mem, p4, P1Table(WordOf(addr))) == Walk(mem, p4, PathAt(addr)[..3])
    ensures Translate(mem, p4, WordOf(addr)) == Walk(mem, p4, PathAt(addr))
  {
    hide PathOf, PathAt, WordOf, P3Table, P2Table, P1Table;
    SamePath(addr);
    RecursiveMapping(mem, p4, WordOf(addr));
  }

  // ----------------------------------------------------- the entry layout

  const FLAGS_MASK: bv64 := 0x8000_0000_0000_0FFF

  function GetAddr(raw: bv64): bv64 { raw & !FLAGS_MASK }

  function SetAddr(raw: bv64, addr: bv64): bv64 { addr | (raw & FLAGS_MASK) }

  /** Bits 0, 1, 2, 9, 10, 11 and 63 and the frame number. */
  function Decode(raw: bv64): Entry {
    Entry((GetAddr(raw) >> 12) as nat, raw & 1 != 0, raw & 2 != 0, raw & 4 != 0, raw & 0x200 != 0,
          raw & 0x400 != 0, raw & 0x800 != 0, raw & 0x8000_0000_0000_0000 != 0)
  }

  /** The flag assignments of `markAsCoW` on the 64-bit word. */
  function RawMark(raw: bv64): bv64 {
    if raw & 0x400 != 0 then raw
    else
      var w := if raw & 2 != 0 then raw | 0x800 else raw & !0x800;
      (w & !2) | 0x400
  }

  lemma MarkBits(raw: bv64)
    ensures GetAddr(RawMark(raw)) == GetAddr(raw)
    ensures raw & 0x400 == 0 ==>
      RawMark(raw) & 0x400 != 0 && RawMark(raw) & 2 == 0 && (RawMark(raw) & 0x800 != 0 <==> raw & 2 != 0)
  {}

  lemma MarkKeeps(raw: bv64)
    ensures RawMark(raw) & 1 == raw & 1 && RawMark(raw) & 4 == raw & 4 && RawMark(raw) & 0x200 == raw & 0x200
    ensures RawMark(raw) & 0x8000_0000_0000_0000 == raw & 0x8000_0000_0000_0000
  {}

  lemma SetAddrKeeps(raw: bv64, addr: bv64)
    requires addr & FLAGS_MASK == 0
    ensures GetAddr(SetAddr(raw, addr)) == addr && SetAddr(raw, addr) & FLAGS_MASK == raw & FLAGS_MASK
  {}

  /** The handler's flag assignments after the address is in place. */
  function RawUnshare(moved: bv64): bv64 {
    var plain := moved & !0x400;
    if plain & 0x800 != 0 then plain | 2 else plain & !2
  }

  lemma UnshareBits(w: bv64)
    ensures GetAddr(RawUnshare(w)) == GetAddr(w)
    ensures RawUnshare(w) & 0x400 == 0 && (RawUnshare(w) & 2 != 0 <==> w & 0x800 != 0)
    ensures RawUnshare(w) & 1 == w & 1 && RawUnshare(w) & 4 == w & 4 && RawUnshare(w) & 0x200 == w & 0x200
    ensures RawUnshare(w) & 0x800 == w & 0x800 && RawUnshare(w) & 0x8000_0000_0000_0000 == w & 0x8000_0000_0000_0000
  {}

  /** The bit operations of the code are the entry operations of the model. */
  lemma MarkIsFaithful(raw: bv64)
    ensures Decode(RawMark(raw)) == Decode(raw).Mark()
  {
    hide GetAddr, RawMark;
    MarkBits(raw);
    MarkKeeps(raw);
    AlreadyMarked(raw);
  }

  lemma AlreadyMarked(raw: bv64)
    ensures raw & 0x400 != 0 ==> RawMark(raw) == raw
  {}

  lemma SetAddrIsFaithful(raw: bv64, addr: bv64)
    requires addr & FLAGS_MASK == 0
    ensures Decode(SetAddr(raw, addr)) == Decode(raw).(frame := (addr >> 12) as nat)
  {
    hide GetAddr, SetAddr;
    SetAddrKeeps(raw, addr);
    SetAddrFlags(raw, addr);
  }

  lemma SetAddrFlags(raw: bv64, addr: bv64)
    requires addr & FLAGS_MASK == 0
    ensures SetAddr(raw, addr) & 1 == raw & 1 && SetAddr(raw, addr) & 2 == raw & 2 && SetAddr(raw, addr) & 4 == raw & 4
    ensures SetAddr(raw, addr) & 0x200 == raw & 0x200 && SetAddr(raw, addr) & 0x400 == raw & 0x400
    ensures SetAddr(raw, addr) & 0x800 == raw & 0x800
    ensures SetAddr(raw, addr) & 0x8000_0000_0000_0000 == raw & 0x8000_0000_0000_0000
  {}

  lemma UnshareIsFaithful(w: bv64)
    ensures Decode(RawUnshare(w)) == Decode(w).Resolve(Decode(w).frame)
  {
    hide GetAddr, RawUnshare;
    UnshareBits(w);
  }

  lemma ResolveIsFaithful(raw: bv64, addr: bv64)
    requires addr & FLAGS_MASK == 0
    ensures Decode(RawUnshare(SetAddr(raw, addr))) == Decode(raw).Resolve((addr >> 12) as nat)
  {
    hide Decode, SetAddr, RawUnshare;
    SetAddrIsFaithful(raw, addr);
    UnshareIsFaithful(SetAddr(raw, addr));
  }

  // ------------------------------------------------ the words of new entries

  /** What `mapNewPageAt` writes for a page that was not there. */
  function RawLeaf(flags: bv64, addr: bv64): bv64 { SetAddr(flags | 1, addr) }

  /** What it writes for one that was: only the address and the managed bit stay. */
  function RawRemap(raw: bv64, flags: bv64): bv64 {
    var w := (raw & !0x8000_0000_0000_0000 & !0xFFF) | flags;
    if raw & 0x200 != 0 then w | 0x200 else w & !0x200
  }

  /** What `walkToWithAlloc` writes for a new table. */
  function RawTable(addr: bv64, user: bool): bv64 {
    var w := (addr & !0xFFF) | 2 | 1 | 0x200;
    if user then w | 4 else w & !4
  }

  lemma RawLeafBits(flags: bv64, addr: bv64)
    requires addr & FLAGS_MASK == 0
    ensures var w := RawLeaf(flags, addr);
      && GetAddr(w) == addr && w & 1 != 0 && w & 2 == flags & 2 && w & 4 == flags & 4 && w & 0x200 == flags & 0x200
      && w & 0x400 == flags & 0x400 && w & 0x800 == flags & 0x800
      && w & 0x8000_0000_0000_0000 == flags & 0x8000_0000_0000_0000
  {}

  /** A new page is on the frame given, and bits 1, 2, 9 and 63 of the flags are its rights
      and who frees it. */
  lemma NewLeafWord(flags: bv64, addr: bv64)
    requires addr & FLAGS_MASK == 0 && flags & 0xC00 == 0
    ensures var e := Decode(RawLeaf(flags, addr));
      && e.frame == (addr >> 12) as nat && e.present && !e.cow && !e.wasWritable
      && (e.writable <==> flags & 2 != 0) && (e.user <==> flags & 4 != 0)
      && (e.managed <==> flags & 0x200 != 0) && (e.noExecute <==> flags & 0x8000_0000_0000_0000 != 0)
  {
    CowBits(flags);
    hide RawLeaf, GetAddr, Decode;
    RawLeafBits(flags, addr);
    DecodeFlags(RawLeaf(flags, addr));
    DecodeAddress(RawLeaf(flags, addr));
  }

  lemma CowBits(flags: bv64)
    requires flags & 0xC00 == 0
    ensures flags & 0x400 == 0 && flags & 0x800 == 0
  {}

  lemma RawRemapBits(raw: bv64, flags: bv64)
    requires flags & !FLAGS_MASK == 0
    ensures var w := RawRemap(raw, flags);
      && GetAddr(w) == GetAddr(raw) && w & 1 == flags & 1 && w & 2 == flags & 2 && w & 4 == flags & 4
      && w & 0x200 == raw & 0x200 && w & 0x400 == flags & 0x400 && w & 0x800 == flags & 0x800
      && w & 0x8000_0000_0000_0000 == flags & 0x8000_0000_0000_0000
  {}

  /** A page that is there stays where it is and managed or not; the rest is as the flags
      say. */
  lemma OldLeafWord(raw: bv64, flags: bv64)
    requires flags & !FLAGS_MASK == 0 && flags & 1 != 0 && flags & 0xC00 == 0
    ensures var e, e' := Decode(raw), Decode(RawRemap(raw, flags));
      && e'.frame == e.frame && e'.managed == e.managed && e'.present && !e'.cow && !e'.wasWritable
      && (e'.writable <==> flags & 2 != 0) && (e'.user <==> flags & 4 != 0)
      && (e'.noExecute <==> flags & 0x8000_0000_0000_0000 != 0)
  {
    CowBits(flags);
    hide RawRemap, GetAddr, Decode;
    RawRemapBits(raw, flags);
    DecodeFlags(raw);
    DecodeFlags(RawRemap(raw, flags));
    DecodeFrame(raw, RawRemap(raw, flags));
  }

  lemma DecodeFlags(w: bv64)
    ensures var e := Decode(w);
      && (e.present <==> w & 1 != 0) && (e.writable <==> w & 2 != 0) && (e.user <==> w & 4 != 0)
      && (e.managed <==> w & 0x200 != 0) && (e.cow <==> w & 0x400 != 0) && (e.wasWritable <==> w & 0x800 != 0)
      && (e.noExecute <==> w & 0x8000_0000_0000_0000 != 0)
  {
    hide GetAddr;
  }

  lemma DecodeAddress(w: bv64)
    ensures Decode(w).frame == (GetAddr(w) >> 12) as nat
  {
    hide GetAddr;
  }

  lemma DecodeFrame(w: bv64, w': bv64)
    requires GetAddr(w) == GetAddr(w')
    ensures Decode(w).frame == Decode(w').frame
  {
    hide GetAddr;
  }

  lemma RawTableBits(addr: bv64, user: bool)
    requires addr & FLAGS_MASK == 0
    ensures var w := RawTable(addr, user);
      && GetAddr(w) == addr && w & 1 != 0 && w & 2 != 0 && (w & 4 != 0 <==> user) && w & 0x200 != 0
      && w & 0x400 == 0 && w & 0x800 == 0 && w & 0x8000_0000_0000_0000 == 0
  {}

  /** A new table denies nothing but, unless asked for, user access; a page of zeros has no
      entry. */
  lemma NewTableWord(addr: bv64, user: bool)
    requires addr & FLAGS_MASK == 0
    ensures Decode(RawTable(addr, user)) == Entry((addr >> 12) as nat, true, true, user, true, false, false, false)
    ensures Decode(0) == EMPTY
  {
    hide RawTable, GetAddr, Decode;
    RawTableBits(addr, user);
    DecodeFlags(RawTable(addr, user));
    DecodeAddress(RawTable(addr, user));
    DecodeFlags(0);
    DecodeAddress(0);
    assert GetAddr(0) == 0 by { ZeroWord(); }
  }

  lemma ZeroWord()
    ensures GetAddr(0) == 0
  {}
}
