/**
 Shifting, masking and merging 64-bit patterns, held either in one native word or in two
 32-bit halves. Both forms are proved against the same bit-by-bit specification; the
 lemmas keep the word width n, or the half width n, a parameter.
 */
module IntegerCodec {
  import opened Bits

  datatype Direction = Left | Right

  // ----- What the operations mean on n-bit patterns -----

  ghost function Shifted(n: nat, v: nat, bits: nat, dir: Direction): nat {
    if dir == Left then Shl(n, v, bits) else Shr(v, bits)
  }

  /** Keep a field of v; on request repeat its most significant bit upwards. */
  ghost predicate Masked(n: nat, r: nat, v: nat, bits: nat, shift: nat, extend: bool)
    requires bits > 0
  {
    && r < Pow2(n)
    && forall i: nat | i < n :: Bit(r, i) == MaskedBit(v, bits, shift, extend, i)
  }

  ghost predicate MaskedBit(v: nat, bits: nat, shift: nat, extend: bool, i: nat)
    requires bits > 0
  {
    if i < shift then false
    else if i < shift + bits then Bit(v, i)
    else extend && Bit(v, shift + bits - 1)
  }

  /** dest with one field replaced by that field of src. */
  ghost predicate Merged(n: nat, r: nat, dest: nat, src: nat, bits: nat, shift: nat) {
    && r < Pow2(n)
    && forall i: nat | i < n :: Bit(r, i) == if shift <= i < shift + bits then Bit(src, i) else Bit(dest, i)
  }

  /** n-bit patterns with the same n bits are equal. */
  lemma SamePattern(n: nat, x: nat, y: nat)
    requires x < Pow2(n) && y < Pow2(n)
    requires forall i: nat | i < n :: Bit(x, i) == Bit(y, i)
    ensures x == y
  {
    forall i: nat
      ensures Bit(x, i) == Bit(y, i)
    {
      if i >= n {
        BitBelow(x, n, i);
        BitBelow(y, n, i);
      }
    }
    BitExtensional(x, y);
  }

  lemma AndBound(x: nat, y: nat, n: nat)
    requires x < Pow2(n)
    ensures And(x, y) < Pow2(n)
  {
    forall i: nat | i >= n
      ensures !Bit(And(x, y), i)
    {
      BitAnd(x, y, i);
      BitBelow(x, n, i);
    }
    BoundFromBits(And(x, y), n);
  }

  lemma ShrBound(x: nat, k: nat, n: nat)
    requires x < Pow2(n)
    ensures Shr(x, k) < Pow2(n)
  {
    ShrLe(x, k);
  }

  /** `ALL_BITS` of an n-bit word. */
  function AllBits(n: nat): (r: nat)
    ensures r < Pow2(n)
  {
    Pow2(n) - 1
  }

  /** `(ALL_BITS >> (n - bits)) << shift`. */
  function FieldMask(n: nat, bits: nat, shift: nat): (r: nat)
    requires bits <= n
    ensures r < Pow2(n)
  {
    Shl(n, Shr(AllBits(n), n - bits), shift)
  }

  lemma FieldMaskBits(n: nat, bits: nat, shift: nat, i: nat)
    requires bits + shift <= n
    ensures Bit(FieldMask(n, bits, shift), i) == (shift <= i < shift + bits)
  {
    BitShl(n, Shr(AllBits(n), n - bits), shift, i);
    if i >= shift {
      BitShr(AllBits(n), n - bits, i - shift);
      BitOnes(n, i - shift + (n - bits));
    }
  }

  /** `x | (ALL_BITS << k)`: the bits from k up are set. */
  function OnesFrom(n: nat, x: nat, k: nat): (r: nat)
    requires x < Pow2(n)
    ensures r < Pow2(n)
  {
    OrBound(x, Shl(n, AllBits(n), k), n);
    Or(x, Shl(n, AllBits(n), k))
  }

  lemma OnesFromBits(n: nat, x: nat, k: nat, i: nat)
    requires x < Pow2(n) && i < n
    ensures Bit(OnesFrom(n, x, k), i) == (Bit(x, i) || i >= k)
  {
    BitOr(x, Shl(n, AllBits(n), k), i);
    BitShl(n, AllBits(n), k, i);
    if i >= k {
      BitOnes(n, i - k);
    }
  }

  /** `(dest & ~mask) | (src & mask)`. */
  function MergeWord(n: nat, dest: nat, src: nat, mask: nat): (r: nat)
    requires dest < Pow2(n) && src < Pow2(n) && mask < Pow2(n)
    ensures r < Pow2(n)
  {
    AndBound(dest, Not(n, mask), n);
    AndBound(src, mask, n);
    OrBound(And(dest, Not(n, mask)), And(src, mask), n);
    Or(And(dest, Not(n, mask)), And(src, mask))
  }

  lemma MergeWordBits(n: nat, dest: nat, src: nat, mask: nat, i: nat)
    requires dest < Pow2(n) && src < Pow2(n) && mask < Pow2(n) && i < n
    ensures Bit(MergeWord(n, dest, src, mask), i) == if Bit(mask, i) then Bit(src, i) else Bit(dest, i)
  {
    BitOr(And(dest, Not(n, mask)), And(src, mask), i);
    BitAnd(dest, Not(n, mask), i);
    BitAnd(src, mask, i);
    BitNot(n, mask, i);
  }

  // ----- One native word -----

  class NativeWord {
    var value: nat

    constructor (v: nat)
      requires v < Pow2(64)
      ensures Valid() && Pattern() == v
    {
      value := v;
    }

    ghost predicate Valid()
      reads this
    {
      value < Pow2(64)
    }

    ghost function Pattern(): nat
      reads this
    {
      value
    }

    method ShiftInteger(bits: nat, dir: Direction)
      requires Valid() && 0 < bits < 64
      modifies this
      ensures Valid() && Pattern() == Shifted(64, old(Pattern()), bits, dir)
    {
      match dir
      case Left => value := Shl(64, value, bits);
      case Right =>
        ShrBound(value, bits, 64);
        value := Shr(value, bits);
    }

    method MaskInteger(bits: nat, shift: nat, extend: bool)
      requires Valid() && 0 < bits && bits + shift <= 64
      modifies this
      ensures Valid() && Masked(64, Pattern(), old(Pattern()), bits, shift, extend)
    {
      ghost var v := value;
      var msb := bits + shift - 1;
      AndBound(value, FieldMask(64, bits, shift), 64);
      value := And(value, FieldMask(64, bits, shift));
      ghost var kept := value;
      if extend && And(value, Pow2(msb)) != 0 {
        value := OnesFrom(64, value, msb);
      }
      MaskedByWord(64, v, kept, value, bits, shift, extend);
    }

    method MergeInteger(src: nat, bits: nat, shift: nat)
      requires Valid() && src < Pow2(64) && 0 < bits && bits + shift <= 64
      modifies this
      ensures Valid() && Merged(64, Pattern(), old(Pattern()), src, bits, shift)
    {
      MergedByWord(64, value, src, bits, shift);
      value := MergeWord(64, value, src, FieldMask(64, bits, shift));
    }
  }

  lemma MaskedByWord(n: nat, v: nat, kept: nat, r: nat, bits: nat, shift: nat, extend: bool)
    requires v < Pow2(n) && kept < Pow2(n) && 0 < bits && bits + shift <= n
    requires kept == And(v, FieldMask(n, bits, shift))
    requires r == if extend && And(kept, Pow2(bits + shift - 1)) != 0 then OnesFrom(n, kept, bits + shift - 1) else kept
    ensures Masked(n, r, v, bits, shift, extend)
  {
    var msb := bits + shift - 1;
    AndBit(kept, msb);
    BitAnd(v, FieldMask(n, bits, shift), msb);
    FieldMaskBits(n, bits, shift, msb);
    forall i: nat | i < n
      ensures Bit(r, i) == MaskedBit(v, bits, shift, extend, i)
    {
      BitAnd(v, FieldMask(n, bits, shift), i);
      FieldMaskBits(n, bits, shift, i);
      OnesFromBits(n, kept, msb, i);
    }
  }

  lemma MergedByWord(n: nat, dest: nat, src: nat, bits: nat, shift: nat)
    requires dest < Pow2(n) && src < Pow2(n) && bits + shift <= n
    ensures Merged(n, MergeWord(n, dest, src, FieldMask(n, bits, shift)), dest, src, bits, shift)
  {
    var r := MergeWord(n, dest, src, FieldMask(n, bits, shift));
    forall i: nat | i < n
      ensures Bit(r, i) == if shift <= i < shift + bits then Bit(src, i) else Bit(dest, i)
    {
      MergeWordBits(n, dest, src, FieldMask(n, bits, shift), i);
      FieldMaskBits(n, bits, shift, i);
    }
  }

  // ----- Two halves of n bits each -----

  datatype Halves = Halves(h: nat, l: nat) {
    ghost predicate Fits(n: nat) {
      h < Pow2(n) && l < Pow2(n)
    }

    /** Bit i of the pair. */
    ghost predicate At(n: nat, i: nat) {
      if i < n then Bit(l, i) else Bit(h, i - n)
    }

    ghost function Joined(n: nat): nat {
      l + h * Pow2(n)
    }
  }

  lemma JoinedBits(n: nat, x: Halves, i: nat)
    requires x.Fits(n)
    ensures x.Joined(n) < Pow2(2 * n)
    ensures Bit(x.Joined(n), i) == x.At(n, i)
  {
    BitConcat(x.l, x.h, n, i);
    assert Pow2(n) * Pow2(n) == Pow2(2 * n) by { Pow2Add(n, n); }
    TwoDigits(x.l, x.h, Pow2(n), Pow2(n));
  }

  function ShiftLeft(n: nat, x: Halves, bits: nat): (r: Halves)
    requires x.Fits(n) && 0 < bits < 2 * n
    ensures r.Fits(n)
  {
    if bits >= n then Halves(Shl(n, x.l, bits - n), 0)
    else
      ShrBound(x.l, n - bits, n);
      OrBound(Shl(n, x.h, bits), Shr(x.l, n - bits), n);
      Halves(Or(Shl(n, x.h, bits), Shr(x.l, n - bits)), Shl(n, x.l, bits))
  }

  function ShiftRight(n: nat, x: Halves, bits: nat): (r: Halves)
    requires x.Fits(n) && 0 < bits < 2 * n
    ensures r.Fits(n)
  {
    if bits >= n then
      ShrBound(x.h, bits - n, n);
      Halves(0, Shr(x.h, bits - n))
    else
      ShrBound(x.h, bits, n);
      ShrBound(x.l, bits, n);
      OrBound(Shr(x.l, bits), Shl(n, x.h, n - bits), n);
      Halves(Shr(x.h, bits), Or(Shr(x.l, bits), Shl(n, x.h, n - bits)))
  }

  lemma ShiftLeftBits(n: nat, x: Halves, bits: nat, i: nat)
    requires x.Fits(n) && 0 < bits < 2 * n && i < 2 * n
    ensures ShiftLeft(n, x, bits).At(n, i) == (i >= bits && x.At(n, i - bits))
  {
    BitZero(i);
    if bits >= n {
      if i >= n {
        BitShl(n, x.l, bits - n, i - n);
      }
    } else if i < n {
      BitShl(n, x.l, bits, i);
    } else {
      BitOr(Shl(n, x.h, bits), Shr(x.l, n - bits), i - n);
      BitShl(n, x.h, bits, i - n);
      BitShr(x.l, n - bits, i - n);
      if i - bits >= n {
        BitBelow(x.l, n, i - bits);
      }
    }
  }

  lemma ShiftRightBits(n: nat, x: Halves, bits: nat, i: nat)
    requires x.Fits(n) && 0 < bits < 2 * n && i < 2 * n
    ensures ShiftRight(n, x, bits).At(n, i) == (i + bits < 2 * n && x.At(n, i + bits))
  {
    if i >= n {
      BitZero(i - n);
    }
    if bits >= n {
      if i < n {
        BitShr(x.h, bits - n, i);
        if i + bits >= 2 * n {
          BitBelow(x.h, n, i + bits - n);
        }
      }
    } else if i >= n {
      BitShr(x.h, bits, i - n);
      if i + bits >= 2 * n {
        BitBelow(x.h, n, i - n + bits);
      }
    } else {
      BitOr(Shr(x.l, bits), Shl(n, x.h, n - bits), i);
      BitShr(x.l, bits, i);
      BitShl(n, x.h, n - bits, i);
      if i + bits >= n {
        BitBelow(x.l, n, i + bits);
      }
    }
  }

  /** `bits` ones at the low end of the pair. */
  function LowOnes(n: nat, bits: nat): (m: Halves)
    requires 0 < bits <= 2 * n
    ensures m.Fits(n)
  {
    if bits > n then
      ShrBound(AllBits(n), 2 * n - bits, n);
      Halves(Shr(AllBits(n), 2 * n - bits), AllBits(n))
    else
      ShrBound(AllBits(n), n - bits, n);
      Halves(0, Shr(AllBits(n), n - bits))
  }

  lemma LowOnesBits(n: nat, bits: nat, i: nat)
    requires 0 < bits <= 2 * n && i < 2 * n
    ensures LowOnes(n, bits).At(n, i) == (i < bits)
  {
    if bits > n {
      BitOnes(n, i);
      if i >= n {
        BitShr(AllBits(n), 2 * n - bits, i - n);
        BitOnes(n, i - n + (2 * n - bits));
      }
    } else if i < n {
      BitShr(AllBits(n), n - bits, i);
      BitOnes(n, i + (n - bits));
    } else {
      BitZero(i - n);
    }
  }

  /** The field mask, shifted only when the shift is positive. */
  function PairMask(n: nat, bits: nat, shift: nat): (m: Halves)
    requires 0 < bits && bits + shift <= 2 * n
    ensures m.Fits(n)
  {
    if shift > 0 then ShiftLeft(n, LowOnes(n, bits), shift) else LowOnes(n, bits)
  }

  lemma PairMaskBits(n: nat, bits: nat, shift: nat, i: nat)
    requires 0 < bits && bits + shift <= 2 * n && i < 2 * n
    ensures PairMask(n, bits, shift).At(n, i) == (shift <= i < shift + bits)
  {
    LowOnesBits(n, bits, i);
    if shift > 0 {
      ShiftLeftBits(n, LowOnes(n, bits), shift, i);
      if i >= shift {
        LowOnesBits(n, bits, i - shift);
      }
    }
  }

  function MaskPair(n: nat, x: Halves, bits: nat, shift: nat): (r: Halves)
    requires x.Fits(n) && 0 < bits && bits + shift <= 2 * n
    ensures r.Fits(n)
  {
    var mask := PairMask(n, bits, shift);
    AndBound(x.h, mask.h, n);
    AndBound(x.l, mask.l, n);
    Halves(And(x.h, mask.h), And(x.l, mask.l))
  }

  /** Repeat bit msb upwards if it is set. */
  function ExtendPair(n: nat, x: Halves, msb: nat): (r: Halves)
    requires x.Fits(n) && msb < 2 * n
    ensures r.Fits(n)
  {
    if msb >= n then
      if And(x.h, Pow2(msb - n)) != 0 then Halves(OnesFrom(n, x.h, msb - n), x.l) else x
    else
      if And(x.l, Pow2(msb)) != 0 then Halves(AllBits(n), OnesFrom(n, x.l, msb)) else x
  }

  class SplitWord {
    var h: nat
    var l: nat

    constructor (high: nat, low: nat)
      requires high < Pow2(32) && low < Pow2(32)
      ensures Valid() && h == high && l == low
    {
      h, l := high, low;
    }

    ghost predicate Valid()
      reads this
    {
      Halves(h, l).Fits(32)
    }

    ghost function Pattern(): nat
      reads this
    {
      Halves(h, l).Joined(32)
    }

    method ShiftInteger(bits: nat, dir: Direction)
      requires Valid() && 0 < bits < 64
      modifies this
      ensures Valid() && Pattern() == Shifted(64, old(Pattern()), bits, dir)
    {
      ShiftedPair(32, Halves(h, l), bits, dir);
      var r := if dir == Left then ShiftLeft(32, Halves(h, l), bits) else ShiftRight(32, Halves(h, l), bits);
      h, l := r.h, r.l;
    }

    method MaskInteger(bits: nat, shift: nat, extend: bool)
      requires Valid() && 0 < bits && bits + shift <= 64
      modifies this
      ensures Valid() && Masked(64, Pattern(), old(Pattern()), bits, shift, extend)
    {
      var kept := MaskPair(32, Halves(h, l), bits, shift);
      MaskedByPair(32, Halves(h, l), bits, shift, extend);
      h, l := kept.h, kept.l;
      if extend {
        var extended := ExtendPair(32, kept, bits + shift - 1);
        h, l := extended.h, extended.l;
      }
    }

    method MergeInteger(src: Halves, bits: nat, shift: nat)
      requires Valid() && src.Fits(32) && 0 < bits && bits + shift <= 64
      modifies this
      ensures Valid() && Merged(64, Pattern(), old(Pattern()), src.Joined(32), bits, shift)
    {
      var mask := PairMask(32, bits, shift);
      MergedByPair(32, Halves(h, l), src, bits, shift);
      h, l := MergeWord(32, h, src.h, mask.h), MergeWord(32, l, src.l, mask.l);
    }
  }

  lemma ShiftedPair(n: nat, x: Halves, bits: nat, dir: Direction)
    requires x.Fits(n) && 0 < bits < 2 * n
    ensures var r := if dir == Left then ShiftLeft(n, x, bits) else ShiftRight(n, x, bits);
      r.Joined(n) == Shifted(2 * n, x.Joined(n), bits, dir)
  {
    var r := if dir == Left then ShiftLeft(n, x, bits) else ShiftRight(n, x, bits);
    var v := x.Joined(n);
    JoinedBits(n, x, 0);
    JoinedBits(n, r, 0);
    ShrBound(v, bits, 2 * n);
    forall i: nat | i < 2 * n
      ensures Bit(r.Joined(n), i) == Bit(Shifted(2 * n, v, bits, dir), i)
    {
      JoinedBits(n, r, i);
      if dir == Left {
        ShiftLeftBits(n, x, bits, i);
        BitShl(2 * n, v, bits, i);
        if i >= bits {
          JoinedBits(n, x, i - bits);
        }
      } else {
        ShiftRightBits(n, x, bits, i);
        BitShr(v, bits, i);
        JoinedBits(n, x, i + bits);
        if i + bits >= 2 * n {
          BitBelow(v, 2 * n, i + bits);
        }
      }
    }
    SamePattern(2 * n, r.Joined(n), Shifted(2 * n, v, bits, dir));
  }

  lemma MaskedByPair(n: nat, x: Halves, bits: nat, shift: nat, extend: bool)
    requires x.Fits(n) && 0 < bits && bits + shift <= 2 * n
    ensures var kept := MaskPair(n, x, bits, shift);
      var r := if extend then ExtendPair(n, kept, bits + shift - 1) else kept;
      Masked(2 * n, r.Joined(n), x.Joined(n), bits, shift, extend)
  {
    var kept, msb := MaskPair(n, x, bits, shift), bits + shift - 1;
    var r := if extend then ExtendPair(n, kept, msb) else kept;
    JoinedBits(n, r, 0);
    JoinedBits(n, x, msb);
    KeptBits(n, x, bits, shift, msb);
    TopBitTest(n, kept, msb);
    forall i: nat | i < 2 * n
      ensures Bit(r.Joined(n), i) == MaskedBit(x.Joined(n), bits, shift, extend, i)
    {
      JoinedBits(n, r, i);
      JoinedBits(n, x, i);
      KeptBits(n, x, bits, shift, i);
      if i < n {
        OnesFromBits(n, kept.l, msb, i);
      } else {
        BitOnes(n, i - n);
        if msb >= n {
          OnesFromBits(n, kept.h, msb - n, i - n);
        }
      }
    }
  }

  lemma KeptBits(n: nat, x: Halves, bits: nat, shift: nat, i: nat)
    requires x.Fits(n) && 0 < bits && bits + shift <= 2 * n && i < 2 * n
    ensures MaskPair(n, x, bits, shift).At(n, i) == (shift <= i < shift + bits && x.At(n, i))
  {
    var mask := PairMask(n, bits, shift);
    PairMaskBits(n, bits, shift, i);
    if i < n {
      BitAnd(x.l, mask.l, i);
    } else {
      BitAnd(x.h, mask.h, i - n);
    }
  }

  lemma TopBitTest(n: nat, kept: Halves, msb: nat)
    ensures msb >= n ==> (And(kept.h, Pow2(msb - n)) != 0) == kept.At(n, msb)
    ensures msb < n ==> (And(kept.l, Pow2(msb)) != 0) == kept.At(n, msb)
  {
    if msb >= n {
      AndBit(kept.h, msb - n);
    } else {
      AndBit(kept.l, msb);
    }
  }

  lemma MergedByPair(n: nat, x: Halves, src: Halves, bits: nat, shift: nat)
    requires x.Fits(n) && src.Fits(n) && 0 < bits && bits + shift <= 2 * n
    ensures var mask := PairMask(n, bits, shift);
      var r := Halves(MergeWord(n, x.h, src.h, mask.h), MergeWord(n, x.l, src.l, mask.l));
      Merged(2 * n, r.Joined(n), x.Joined(n), src.Joined(n), bits, shift)
  {
    var mask := PairMask(n, bits, shift);
    var r := Halves(MergeWord(n, x.h, src.h, mask.h), MergeWord(n, x.l, src.l, mask.l));
    JoinedBits(n, r, 0);
    forall i: nat | i < 2 * n
      ensures Bit(r.Joined(n), i)
        == if shift <= i < shift + bits then Bit(src.Joined(n), i) else Bit(x.Joined(n), i)
    {
      JoinedBits(n, r, i);
      JoinedBits(n, x, i);
      JoinedBits(n, src, i);
      PairMaskBits(n, bits, shift, i);
      if i < n {
        MergeWordBits(n, x.l, src.l, mask.l, i);
      } else {
        MergeWordBits(n, x.h, src.h, mask.h, i - n);
      }
    }
  }
}
