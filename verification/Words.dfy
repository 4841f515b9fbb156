/**
 64-bit words as bitmaps: `setBit`, `clearBit` and `bitScanForward`.
 */
module Words {

  const BITS: nat := 64
  const ALL_ONES: bv64 := 0xFFFF_FFFF_FFFF_FFFF

  /** A bit number as a shift amount. */
  function Shift(b: nat): bv64 {
    if b == 0 then 0 else Shift(b - 1) + 1
  }

  /** Bit v of w; shift counts are taken modulo 64, as the processor does. */
  predicate BitAt(w: bv64, v: bv64) { (w >> (v & 63)) & 1 == 1 }

  function Mask(v: bv64): bv64 { (1 as bv64) << (v & 63) }

  predicate Bit(w: bv64, b: nat)
    requires b < BITS
  {
    BitAt(w, Shift(b))
  }

  function SetBit(w: bv64, b: nat): bv64
    requires b < BITS
  {
    w | Mask(Shift(b))
  }

  function ClearBit(w: bv64, b: nat): bv64
    requires b < BITS
  {
    w & !Mask(Shift(b))
  }

  lemma SetAt(w: bv64, v: bv64, u: bv64)
    requires v < 64 && u < 64
    ensures BitAt(w | Mask(v), u) <==> u == v || BitAt(w, u)
  {}

  lemma ClearAt(w: bv64, v: bv64, u: bv64)
    requires v < 64 && u < 64
    ensures BitAt(w & !Mask(v), u) <==> u != v && BitAt(w, u)
  {}

  lemma {:induction false} ShiftIs(b: nat)
    requires b < BITS
    ensures Shift(b) as nat == b && Shift(b) < 64
  {
    if b > 0 {
      ShiftIs(b - 1);
      ShiftNext(Shift(b - 1));
    }
  }

  lemma ShiftNext(v: bv64)
    requires v as nat < 63
    ensures (v + 1) as nat == v as nat + 1 && v + 1 < 64
  {}

  lemma ShiftInjective(b: nat, c: nat)
    requires b < BITS && c < BITS
    ensures Shift(b) == Shift(c) <==> b == c
    ensures Shift(b) < 64 && Shift(c) < 64
  {
    ShiftIs(b);
    ShiftIs(c);
  }

  lemma SetBitIs(w: bv64, b: nat, c: nat)
    requires b < BITS && c < BITS
    ensures Bit(SetBit(w, b), c) <==> c == b || Bit(w, c)
  {
    hide BitAt, Mask, Shift;
    ShiftInjective(b, c);
    SetAt(w, Shift(b), Shift(c));
  }

  lemma ClearBitIs(w: bv64, b: nat, c: nat)
    requires b < BITS && c < BITS
    ensures Bit(ClearBit(w, b), c) <==> c != b && Bit(w, c)
  {
    hide BitAt, Mask, Shift;
    ShiftInjective(b, c);
    ClearAt(w, Shift(b), Shift(c));
  }

  lemma ZeroBits(b: nat)
    requires b < BITS
    ensures !Bit(0, b) && Bit(ALL_ONES, b)
  {
    OnesAt(Shift(b));
  }

  lemma OnesAt(v: bv64)
    ensures !BitAt(0, v) && BitAt(ALL_ONES, v)
  {}

  /** The lowest clear bit from b upwards, or 64: what `bitScanForward(~w)` finds. */
  function LowestClear(w: bv64, b: nat): (r: nat)
    requires b <= BITS
    ensures b <= r <= BITS
    ensures r < BITS ==> !Bit(w, r)
    ensures forall c :: b <= c < r ==> Bit(w, c)
    decreases BITS - b
  {
    if b == BITS || !Bit(w, b) then b else LowestClear(w, b + 1)
  }

  /** A word is all ones exactly when none of its bits is clear. */
  lemma FullWord(w: bv64)
    ensures w == ALL_ONES <==> forall b :: 0 <= b < BITS ==> Bit(w, b)
  {
    if w == ALL_ONES {
      forall b | 0 <= b < BITS ensures Bit(w, b) { ZeroBits(b); }
    } else {
      var b := SomeClear(w, 0);
    }
  }

  lemma {:induction false} SomeClear(w: bv64, b: nat) returns (c: nat)
    requires b < BITS && Differs(w, Shift(b))
    ensures c < BITS && !Bit(w, c)
    decreases BITS - b
  {
    if !Bit(w, b) {
      c := b;
    } else {
      DiffersAbove(w, b);
      c := SomeClear(w, b + 1);
    }
  }

  /** w is not all ones from bit v upwards. */
  predicate Differs(w: bv64, v: bv64) {
    v < 64 && (w >> v) != (ALL_ONES >> v)
  }

  lemma DiffersAbove(w: bv64, b: nat)
    requires b < BITS && Differs(w, Shift(b)) && Bit(w, b)
    ensures b + 1 < BITS && Differs(w, Shift(b + 1))
  {
    DiffersNext(w, Shift(b));
    ShiftIs(b);
    SmallShift(Shift(b));
  }

  lemma DiffersNext(w: bv64, v: bv64)
    requires Differs(w, v) && BitAt(w, v)
    ensures v < 63 && Differs(w, v + 1)
  {}

  lemma SmallShift(v: bv64)
    requires v < 63
    ensures v as nat < 63
  {}
}
