/**
 The reference-counted frame allocator: a bitmap with one bit a frame, scanned a
 word at a time from a search hint.
 */
module PhysMemory {
  import opened Basics
  import opened Words

  /** 64-bit increment and decrement. */
  function Inc64(x: nat): nat { if x + 1 == WORD_LIMIT then 0 else x + 1 }
  function Dec64(x: nat): nat { if x == 0 then WORD_LIMIT - 1 else x - 1 }

  function BitIn(words: seq<bv64>, p: nat): bool
    requires p < BITS * |words|
  {
    Bit(words[p / BITS], p % BITS)
  }

  lemma BitInSet(words: seq<bv64>, i: nat, b: nat, p: nat)
    requires i < |words| && b < BITS && p < BITS * |words|
    ensures BitIn(words[i := SetBit(words[i], b)], p) <==> p == BITS * i + b || BitIn(words, p)
  {
    SetBitIs(words[i], b, p % BITS);
  }

  lemma BitInClear(words: seq<bv64>, i: nat, b: nat, p: nat)
    requires i < |words| && b < BITS && p < BITS * |words|
    ensures BitIn(words[i := ClearBit(words[i], b)], p) <==> p != BITS * i + b && BitIn(words, p)
  {
    ClearBitIs(words[i], b, p % BITS);
  }

  lemma BitInFill(words: seq<bv64>, i: nat, full: bool, p: nat)
    requires i < |words| && p < BITS * |words|
    ensures BitIn(words[i := if full then ALL_ONES else 0], p) <==> if p / BITS == i then full else BitIn(words, p)
  {
    ZeroBits(p % BITS);
  }

  /** Frames from start up to end, as a firmware memory map lists them. */
  datatype FrameRange = FrameRange(start: nat, end: nat)

  ghost predicate InSome(ranges: seq<FrameRange>, p: nat) {
    exists i: nat :: i < |ranges| && ranges[i].start <= p < ranges[i].end
  }

  class PhysAllocator {
    const pagesCount: nat
    const bitmap: array<bv64>
    const refCount: array<nat>
    var leastUncheckedIndex: nat

    /** Sizes match, frame 0 and the bits past the last frame are taken, and the
        words below the hint are full. */
    ghost predicate Valid()
      reads this, bitmap
    {
      && 0 < pagesCount && PAGE_SIZE * pagesCount <= WORD_LIMIT
      && bitmap.Length == (pagesCount + BITS - 1) / BITS
      && refCount.Length == pagesCount
      && bitmap as object != refCount
      && leastUncheckedIndex <= bitmap.Length
      && (forall i :: 0 <= i < leastUncheckedIndex ==> bitmap[i] == ALL_ONES)
      && BitIn(bitmap[..], 0)
      && (forall p :: pagesCount <= p < BITS * bitmap.Length ==> BitIn(bitmap[..], p))
    }

    /** The set the bitmap stands for. */
    ghost function Used(): (s: set<nat>)
      requires Valid()
      reads this, bitmap
      ensures forall p: nat :: p in s <==> p < pagesCount && BitIn(bitmap[..], p)
    {
      set p: nat | p < pagesCount && BitIn(bitmap[..], p)
    }

    ghost function Refs(): seq<nat>
      reads this, refCount
    {
      refCount[..]
    }

    /** `init`. `words` and `counts` are what the bitmap and the counters held before. Whatever
        is marked for the boot information and the ramdisk above the first unused frame is
        unmarked again, and the bits past the last frame are left as they were: the allocator
        is sound exactly if they were set. */
    constructor (pagesCount: nat, words: seq<bv64>, counts: seq<nat>, firstUnused: nat,
                 multiboot: FrameRange, initrd: FrameRange, unavailable: seq<FrameRange>)
      requires 0 < pagesCount && PAGE_SIZE * pagesCount <= WORD_LIMIT
      requires |words| == (pagesCount + BITS - 1) / BITS && |counts| == pagesCount && 0 < firstUnused <= pagesCount
      requires multiboot.start <= multiboot.end && initrd.start <= initrd.end
      requires forall i: nat :: i < |unavailable| ==> unavailable[i].start <= unavailable[i].end
      ensures Valid() <==> forall p :: pagesCount <= p < BITS * |words| ==> BitIn(words, p)
      ensures this.pagesCount == pagesCount && fresh(bitmap) && fresh(refCount) && Refs() == counts
      ensures Valid() ==>
        forall p: nat :: p in Used() <==> p < pagesCount && (p < firstUnused || InSome(unavailable, p))
    {
      this.pagesCount := pagesCount;
      bitmap := new bv64[|words|](i requires 0 <= i < |words| => words[i]);
      refCount := new nat[|counts|](i requires 0 <= i < |counts| => counts[i]);
      leastUncheckedIndex := 0;
      new;
      assert bitmap[..] == words;
      assert refCount[..] == counts;
      BitmapSetIndexRange(0, firstUnused);
      BitmapSetIndexRange(multiboot.start, multiboot.end);
      BitmapSetIndexRange(initrd.start, initrd.end);
      BitmapClearIndexRange(firstUnused, pagesCount);
      MarkUnavailable(unavailable, firstUnused);
    }

    method MarkUnavailable(unavailable: seq<FrameRange>, ghost firstUnused: nat)
      requires pagesCount <= BITS * bitmap.Length && 0 < firstUnused <= pagesCount
      requires forall i: nat :: i < |unavailable| ==> unavailable[i].start <= unavailable[i].end
      requires forall p: nat :: p < pagesCount ==> (BitIn(bitmap[..], p) <==> p < firstUnused)
      modifies bitmap
      ensures forall p: nat :: p < pagesCount ==> (BitIn(bitmap[..], p) <==> p < firstUnused || InSome(unavailable, p))
      ensures forall p :: pagesCount <= p < BITS * bitmap.Length ==> BitIn(bitmap[..], p) == old(BitIn(bitmap[..], p))
    {
      assert unavailable[..0] == [];
      for i := 0 to |unavailable|
        invariant forall p: nat :: p < pagesCount ==>
          (BitIn(bitmap[..], p) <==> p < firstUnused || InSome(unavailable[..i], p))
        invariant forall p :: pagesCount <= p < BITS * bitmap.Length ==>
          BitIn(bitmap[..], p) == old(BitIn(bitmap[..], p))
      {
        ghost var before := bitmap[..];
        BitmapSetIndexRange(unavailable[i].start, unavailable[i].end);
        forall p: nat
          ensures InSome(unavailable[..i + 1], p) <==>
            InSome(unavailable[..i], p) || unavailable[i].start <= p < unavailable[i].end
        {
          OneMoreRange(unavailable, i, p);
        }
      }
      assert unavailable[..|unavailable|] == unavailable;
    }

    // ------------------------------------------------------ ranges of frames

    /** Word-at-a-time clearing equals clearing each frame of the range.  Only
        start-up clears ranges, when nothing has been searched yet. */
    method BitmapClearIndexRange(start: nat, end: nat)
      requires start <= end && pagesCount <= BITS * bitmap.Length
      modifies bitmap
      ensures forall p :: 0 <= p < BITS * bitmap.Length ==>
        BitIn(bitmap[..], p) == (if start <= p < end && p < pagesCount then false else old(BitIn(bitmap[..], p)))
    {
      if start >= pagesCount { return; }
      var last := if end > pagesCount then pagesCount else end;
      var startIndex, endIndex := start / BITS, last / BITS;
      ghost var before := bitmap[..];
      if startIndex == endIndex {
        ClearBits(startIndex, start % BITS, last % BITS);
      } else {
        ClearBits(startIndex, start % BITS, BITS);
        ghost var middle := bitmap[..];
        if endIndex < bitmap.Length { ClearBits(endIndex, 0, last % BITS); }
        ghost var ends := bitmap[..];
        var i := startIndex + 1;
        while i < endIndex
          invariant startIndex < i <= endIndex
          invariant forall p :: 0 <= p < BITS * bitmap.Length ==>
            BitIn(bitmap[..], p) == (if BITS * (startIndex + 1) <= p < BITS * i then false else BitIn(ends, p))
        {
          ghost var now := bitmap[..];
          bitmap[i] := 0;
          assert bitmap[..] == now[i := if false then ALL_ONES else 0];
          forall p: nat | p < BITS * bitmap.Length
            ensures BitIn(bitmap[..], p) <==> if p / BITS == i then false else BitIn(now, p)
          {
            BitInFill(now, i, false, p);
          }
          i := i + 1;
        }
      }
    }

    /** The inner bit loop of the range operations. */
    method ClearBits(i: nat, from: nat, to: nat)
      requires i < bitmap.Length && from <= to <= BITS
      modifies bitmap
      ensures forall p :: 0 <= p < BITS * bitmap.Length ==>
        BitIn(bitmap[..], p) == (if BITS * i + from <= p < BITS * i + to then false else old(BitIn(bitmap[..], p)))
    {
      ghost var before := bitmap[..];
      var bit := from;
      while bit < to
        invariant from <= bit <= to
        invariant forall p :: 0 <= p < BITS * bitmap.Length ==>
          BitIn(bitmap[..], p) == (if BITS * i + from <= p < BITS * i + bit then false else BitIn(before, p))
      {
        ghost var now := bitmap[..];
        bitmap[i] := ClearBit(bitmap[i], bit);
        assert bitmap[..] == now[i := ClearBit(now[i], bit)];
        forall p: nat | p < BITS * bitmap.Length
          ensures BitIn(bitmap[..], p) <==> p != BITS * i + bit && BitIn(now, p)
        {
          BitInClear(now, i, bit, p);
        }
        bit := bit + 1;
      }
    }

    /** Word-at-a-time setting equals setting each frame of the range. */
    method BitmapSetIndexRange(start: nat, end: nat)
      requires start <= end && pagesCount <= BITS * bitmap.Length
      modifies bitmap
      ensures forall p :: 0 <= p < BITS * bitmap.Length ==>
        BitIn(bitmap[..], p) == (if start <= p < end && p < pagesCount then true else old(BitIn(bitmap[..], p)))
    {
      if start >= pagesCount { return; }
      var last := if end > pagesCount then pagesCount else end;
      var startIndex, endIndex := start / BITS, last / BITS;
      if startIndex == endIndex {
        SetBits(startIndex, start % BITS, last % BITS);
      } else {
        SetBits(startIndex, start % BITS, BITS);
        if endIndex < bitmap.Length { SetBits(endIndex, 0, last % BITS); }
        ghost var ends := bitmap[..];
        var i := startIndex + 1;
        while i < endIndex
          invariant startIndex < i <= endIndex
          invariant forall p :: 0 <= p < BITS * bitmap.Length ==>
            BitIn(bitmap[..], p) == (if BITS * (startIndex + 1) <= p < BITS * i then true else BitIn(ends, p))
        {
          ghost var now := bitmap[..];
          bitmap[i] := ALL_ONES;
          assert bitmap[..] == now[i := if true then ALL_ONES else 0];
          forall p: nat | p < BITS * bitmap.Length
            ensures BitIn(bitmap[..], p) <==> if p / BITS == i then true else BitIn(now, p)
          {
            BitInFill(now, i, true, p);
          }
          i := i + 1;
        }
      }
    }

    method SetBits(i: nat, from: nat, to: nat)
      requires i < bitmap.Length && from <= to <= BITS
      modifies bitmap
      ensures forall p :: 0 <= p < BITS * bitmap.Length ==>
        BitIn(bitmap[..], p) == (if BITS * i + from <= p < BITS * i + to then true else old(BitIn(bitmap[..], p)))
    {
      ghost var before := bitmap[..];
      var bit := from;
      while bit < to
        invariant from <= bit <= to
        invariant forall p :: 0 <= p < BITS * bitmap.Length ==>
          BitIn(bitmap[..], p) == (if BITS * i + from <= p < BITS * i + bit then true else BitIn(before, p))
      {
        ghost var now := bitmap[..];
        bitmap[i] := SetBit(bitmap[i], bit);
        assert bitmap[..] == now[i := SetBit(now[i], bit)];
        forall p: nat | p < BITS * bitmap.Length
          ensures BitIn(bitmap[..], p) <==> p == BITS * i + bit || BitIn(now, p)
        {
          BitInSet(now, i, bit, p);
        }
        bit := bit + 1;
      }
    }

    // -------------------------------------------------------- single frames

    /** Takes the lowest free frame, whatever the hint says; 0 exactly when none is free. */
    method NewPage() returns (addr: nat)
      requires Valid()
      modifies this`leastUncheckedIndex, bitmap, refCount
      ensures Valid()
      ensures addr == 0 ==> Used() == old(Used()) && Refs() == old(Refs()) && forall p :: 0 <= p < pagesCount ==>
        p in Used()
      ensures addr != 0 ==> var f := addr / PAGE_SIZE;
        && addr == PAGE_SIZE * f && f < pagesCount && f !in old(Used())
        && (forall p :: 0 <= p < f ==> p in old(Used()))
        && Used() == old(Used()) + {f} && Refs() == old(Refs())[f := 1]
    {
      ghost var words := bitmap[..];
      addr := leastUncheckedIndex * BITS * PAGE_SIZE;
      var i := leastUncheckedIndex;
      while i < bitmap.Length
        invariant leastUncheckedIndex <= i <= bitmap.Length
        invariant addr == i * BITS * PAGE_SIZE
        invariant forall k :: 0 <= k < i ==> bitmap[k] == ALL_ONES
      {
        if bitmap[i] != ALL_ONES {
          FullWord(bitmap[i]);
          var index := LowestClear(bitmap[i], 0);
          LowestFree(words, i, index);
          ghost var f := BITS * i + index;
          assert f !in Used();
          Take(i, index);
          addr := addr + index * PAGE_SIZE;
          assert addr == PAGE_SIZE * f && addr / PAGE_SIZE == f;
          return;
        }
        i := i + 1;
        addr := addr + BITS * PAGE_SIZE;
      }
      AllFull(words, pagesCount);
      addr := 0;
    }

    /** Marks the free frame found at bit `index` of word i as taken. */
    method Take(i: nat, index: nat)
      requires Valid() && i < bitmap.Length && index < BITS && !BitIn(bitmap[..], BITS * i + index)
      requires forall k :: 0 <= k < i ==> bitmap[k] == ALL_ONES
      modifies this`leastUncheckedIndex, bitmap, refCount
      ensures Valid()
      ensures BITS * i + index < pagesCount && BITS * i + index > 0
      ensures Used() == old(Used()) + {BITS * i + index}
      ensures Refs() == old(Refs())[BITS * i + index := 1]
    {
      ghost var words, f := bitmap[..], BITS * i + index;
      refCount[BITS * i + index] := 1;
      bitmap[i] := SetBit(bitmap[i], index);
      leastUncheckedIndex := i;
      assert bitmap[..] == words[i := SetBit(words[i], index)];
      forall p: nat | p < BITS * bitmap.Length ensures BitIn(bitmap[..], p) <==> p == f || BitIn(words, p) {
        BitInSet(words, i, index, p);
      }
    }

    /** Drops one reference; the frame is free again when none is left. */
    method FreePage(addr: nat)
      requires Valid() && 0 < addr / PAGE_SIZE < pagesCount
      modifies this`leastUncheckedIndex, bitmap, refCount
      ensures Valid()
      ensures var f := addr / PAGE_SIZE;
        && Refs() == old(Refs())[f := Dec64(old(Refs())[f])]
        && Used() == if old(Refs())[f] == 1 then old(Used()) - {f} else old(Used())
    {
      var f := addr / PAGE_SIZE;
      ghost var words := bitmap[..];
      refCount[f] := Dec64(refCount[f]);
      if refCount[f] == 0 {
        bitmap[f / BITS] := ClearBit(bitmap[f / BITS], f % BITS);
        assert bitmap[..] == words[f / BITS := ClearBit(words[f / BITS], f % BITS)];
        leastUncheckedIndex := 0;
        forall p: nat | p < BITS * bitmap.Length ensures BitIn(bitmap[..], p) <==> p != f && BitIn(words, p) {
          BitInClear(words, f / BITS, f % BITS, p);
        }
      }
    }

    method IncrementRefCount(addr: nat)
      requires Valid() && addr / PAGE_SIZE < pagesCount
      modifies refCount
      ensures Valid() && Used() == old(Used())
      ensures var f := addr / PAGE_SIZE; Refs() == old(Refs())[f := Inc64(old(Refs())[f])]
    {
      var f := addr / PAGE_SIZE;
      ghost var words := bitmap[..];
      refCount[f] := Inc64(refCount[f]);
      assert bitmap[..] == words;
    }
  }

  lemma OneMoreRange(ranges: seq<FrameRange>, i: nat, p: nat)
    requires i < |ranges|
    ensures InSome(ranges[..i + 1], p) <==> InSome(ranges[..i], p) || ranges[i].start <= p < ranges[i].end
  {
    if InSome(ranges[..i], p) {
      var j: nat :| j < i && ranges[..i][j].start <= p < ranges[..i][j].end;
      assert ranges[..i + 1][j] == ranges[j];
    }
    if ranges[i].start <= p < ranges[i].end { assert ranges[..i + 1][i] == ranges[i]; }
  }

  /** Sixty-four frames, the first three in use and a ramdisk in frame 5: start-up leaves
      that one free. */
  method RamdiskNotKept() returns (phys: PhysAllocator)
    ensures phys.Valid() && 5 !in phys.Used()
  {
    var counts := seq(64, _ => 0);
    phys := new PhysAllocator(64, [0], counts, 3, FrameRange(4, 5), FrameRange(5, 6), []);
  }

  /** The lowest clear bit of the first word that is not full is the lowest clear bit of all. */
  lemma LowestFree(words: seq<bv64>, i: nat, index: nat)
    requires i < |words| && (forall k :: 0 <= k < i ==> words[k] == ALL_ONES)
    requires index == LowestClear(words[i], 0) && words[i] != ALL_ONES
    ensures index < BITS && !BitIn(words, BITS * i + index)
    ensures forall p :: 0 <= p < BITS * i + index ==> BitIn(words, p)
  {
    FullWord(words[i]);
    forall p: nat | p < BITS * i + index ensures BitIn(words, p) {
      if p / BITS < i {
        ZeroBits(p % BITS);
      } else {
        assert p / BITS == i && p % BITS < index;
      }
    }
    assert (BITS * i + index) / BITS == i && (BITS * i + index) % BITS == index;
  }

  lemma AllFull(words: seq<bv64>, n: nat)
    requires n <= BITS * |words| && forall k :: 0 <= k < |words| ==> words[k] == ALL_ONES
    ensures forall p :: 0 <= p < n ==> BitIn(words, p)
  {
    forall p | 0 <= p < n ensures BitIn(words, p) { ZeroBits(p % BITS); }
  }
}
