/**
 Storing integers and bitfields into bytes and fetching them back, in big or little endian
 byte order. The native and the split-word routines compute the same functions on bytes;
 the lemmas about those functions are the codec's laws.
 */
module IntegerMemory {
  import opened Bits
  import opened IntegerCodec

  type byte = x: nat | x < 256

  datatype ByteOrder = BigEndian | LittleEndian

  predicate IntSize(size: nat) {
    size == 1 || size == 2 || size == 4 || size == 8
  }

  // ----- Bytes and their bits -----

  /** The least significant of some bytes, and the others. */
  function Low(bytes: seq<byte>, bo: ByteOrder): byte
    requires bytes != []
  {
    if bo == LittleEndian then bytes[0] else bytes[|bytes| - 1]
  }

  function Rest(bytes: seq<byte>, bo: ByteOrder): (r: seq<byte>)
    requires bytes != []
    ensures |r| == |bytes| - 1
  {
    if bo == LittleEndian then bytes[1..] else bytes[..|bytes| - 1]
  }

  function Joined(low: byte, rest: seq<byte>, bo: ByteOrder): (bytes: seq<byte>)
    ensures |bytes| == |rest| + 1 && Low(bytes, bo) == low && Rest(bytes, bo) == rest
  {
    if bo == LittleEndian then [low] + rest else rest + [low]
  }

  function LowByte(v: nat): byte {
    assert Pow2(8) == 256;
    AndOnes(v, 8);
    And(v, 0xFF)
  }

  /** What the SET macros write: one byte after the other is masked and shifted out. */
  function Encode(v: nat, size: nat, bo: ByteOrder): (bytes: seq<byte>)
    ensures |bytes| == size
    decreases size
  {
    if size == 0 then [] else Joined(LowByte(v), Encode(Shr(v, 8), size - 1, bo), bo)
  }

  /** What the GET macros read: the bytes or-ed together at their significance. */
  function Decode(bytes: seq<byte>, bo: ByteOrder): nat
    decreases |bytes|
  {
    if bytes == [] then 0 else Or(Low(bytes, bo), Decode(Rest(bytes, bo), bo) * 256)
  }

  /** Bit i of the number held in the bytes. */
  ghost predicate ContainerBit(bytes: seq<byte>, bo: ByteOrder, i: nat)
    decreases |bytes|
  {
    bytes != [] && if i < 8 then Bit(Low(bytes, bo), i) else ContainerBit(Rest(bytes, bo), bo, i - 8)
  }

  lemma ByteBits(b: byte, i: nat)
    requires i >= 8
    ensures !Bit(b, i)
  {
    assert Pow2(8) == 256;
    BitBelow(b, 8, i);
  }

  lemma DecodeBits(bytes: seq<byte>, bo: ByteOrder, i: nat)
    ensures Bit(Decode(bytes, bo), i) == ContainerBit(bytes, bo, i)
    ensures i >= 8 * |bytes| ==> !ContainerBit(bytes, bo, i)
    decreases |bytes|
  {
    if bytes == [] {
      BitZero(i);
    } else {
      assert Pow2(8) == 256;
      var rest := Decode(Rest(bytes, bo), bo);
      BitOr(Low(bytes, bo), rest * 256, i);
      BitMul(rest, 8, i);
      if i >= 8 {
        ByteBits(Low(bytes, bo), i);
        DecodeBits(Rest(bytes, bo), bo, i - 8);
      }
    }
  }

  lemma DecodeBound(bytes: seq<byte>, bo: ByteOrder)
    ensures Decode(bytes, bo) < Pow2(8 * |bytes|)
  {
    forall i: nat | i >= 8 * |bytes|
      ensures !Bit(Decode(bytes, bo), i)
    {
      DecodeBits(bytes, bo, i);
    }
    BoundFromBits(Decode(bytes, bo), 8 * |bytes|);
  }

  lemma LowByteBits(v: nat, i: nat)
    ensures Bit(LowByte(v), i) == (i < 8 && Bit(v, i))
  {
    assert Pow2(8) == 256;
    BitAnd(v, 0xFF, i);
    BitOnes(8, i);
  }

  lemma EncodeBits(v: nat, size: nat, bo: ByteOrder, i: nat)
    ensures ContainerBit(Encode(v, size, bo), bo, i) == (i < 8 * size && Bit(v, i))
    decreases size
  {
    if size > 0 {
      if i < 8 {
        LowByteBits(v, i);
      } else {
        EncodeBits(Shr(v, 8), size - 1, bo, i - 8);
        BitShr(v, 8, i - 8);
      }
    }
  }

  /** Byte sequences of one length with the same container bits are equal. */
  lemma SameBytes(a: seq<byte>, b: seq<byte>, bo: ByteOrder)
    requires |a| == |b|
    requires forall i: nat | i < 8 * |a| :: ContainerBit(a, bo, i) == ContainerBit(b, bo, i)
    ensures a == b
    decreases |a|
  {
    if a != [] {
      assert Pow2(8) == 256;
      forall i: nat | i < 8
        ensures Bit(Low(a, bo), i) == Bit(Low(b, bo), i)
      {
        assert ContainerBit(a, bo, i) == ContainerBit(b, bo, i);
      }
      SamePattern(8, Low(a, bo), Low(b, bo));
      forall i: nat | i < 8 * |Rest(a, bo)|
        ensures ContainerBit(Rest(a, bo), bo, i) == ContainerBit(Rest(b, bo), bo, i)
      {
        assert ContainerBit(a, bo, i + 8) == ContainerBit(b, bo, i + 8);
      }
      SameBytes(Rest(a, bo), Rest(b, bo), bo);
      assert a == Joined(Low(a, bo), Rest(a, bo), bo);
      assert b == Joined(Low(b, bo), Rest(b, bo), bo);
    }
  }

  // ----- What storing and fetching compute, on n-bit words -----

  /** The bytes after `store_integer` with the given field (the whole container if bits is 0). */
  function StoreBytes(n: nat, bytes: seq<byte>, bits: nat, shift: nat, bo: ByteOrder, v: nat): (r: seq<byte>)
    requires 8 * |bytes| <= n && (bits > 0 ==> bits + shift <= n)
    ensures |r| == |bytes|
  {
    if bits > 0 then
      DecodeFits(n, bytes, bo);
      Encode(MergeWord(n, Decode(bytes, bo), Shl(n, v, shift), FieldMask(n, bits, shift)), |bytes|, bo)
    else
      Encode(v, |bytes|, bo)
  }

  lemma DecodeFits(n: nat, bytes: seq<byte>, bo: ByteOrder)
    requires 8 * |bytes| <= n
    ensures Decode(bytes, bo) < Pow2(n)
  {
    DecodeBound(bytes, bo);
    Pow2Monotone(8 * |bytes|, n);
  }

  /** A k-bit number read into n bits, with its top bit repeated upwards if sign is set. */
  function Extend(n: nat, v: nat, k: nat, sign: bool): (r: nat)
    requires v < Pow2(n)
    ensures r < Pow2(n)
  {
    if sign && k > 0 && And(v, Pow2(k - 1)) != 0 then OnesFrom(n, v, k - 1) else v
  }

  lemma ExtendBits(n: nat, v: nat, k: nat, sign: bool, i: nat)
    requires 0 < k <= n && v < Pow2(k) && i < n
    ensures v < Pow2(n)
    ensures Bit(Extend(n, v, k, sign), i) == if i < k then Bit(v, i) else sign && Bit(v, k - 1)
  {
    Pow2Monotone(k, n);
    AndBit(v, k - 1);
    OnesFromBits(n, v, k - 1, i);
    if i >= k {
      BitBelow(v, k, i);
    }
  }

  /** `bits` bits of v from bit `shift` on, extended to n bits. */
  function FieldOf(n: nat, v: nat, bits: nat, shift: nat, sign: bool): (r: nat)
    requires v < Pow2(n) && 0 < bits <= n
    ensures r < Pow2(n)
  {
    ShrBound(v, shift, n);
    var s := if shift > 0 then Shr(v, shift) else v;
    AndBound(s, FieldMask(n, bits, 0), n);
    Extend(n, And(s, FieldMask(n, bits, 0)), bits, sign)
  }

  /** The n-bit pattern `fetch_integer` returns. */
  function FetchPattern(n: nat, bytes: seq<byte>, sign: bool, bits: nat, shift: nat, bo: ByteOrder): (r: nat)
    requires 8 * |bytes| <= n && bits <= n
    ensures r < Pow2(n)
  {
    DecodeFits(n, bytes, bo);
    var c := Extend(n, Decode(bytes, bo), 8 * |bytes|, sign);
    if bits == 0 then c else FieldOf(n, c, bits, shift, sign)
  }

  /** Width and place of the bits a field names; bits == 0 names the whole container. */
  ghost function Width(size: nat, bits: nat): nat {
    if bits > 0 then bits else 8 * size
  }

  ghost function Place(bits: nat, shift: nat): nat {
    if bits > 0 then shift else 0
  }

  /** The field lies in the container, and the container in the word. */
  ghost predicate FieldFits(n: nat, size: nat, bits: nat, shift: nat) {
    0 < 8 * size <= n && (bits > 0 ==> bits + shift <= 8 * size)
  }

  /** A store sets exactly the field's bits and leaves every other bit of the container alone. */
  lemma StoreBits(n: nat, bytes: seq<byte>, bits: nat, shift: nat, bo: ByteOrder, v: nat, i: nat)
    requires FieldFits(n, |bytes|, bits, shift)
    ensures ContainerBit(StoreBytes(n, bytes, bits, shift, bo, v), bo, i) ==
      if Place(bits, shift) <= i < Place(bits, shift) + Width(|bytes|, bits) then Bit(v, i - Place(bits, shift))
      else ContainerBit(bytes, bo, i)
  {
    if bits > 0 {
      DecodeFits(n, bytes, bo);
      var d, src, mask := Decode(bytes, bo), Shl(n, v, shift), FieldMask(n, bits, shift);
      EncodeBits(MergeWord(n, d, src, mask), |bytes|, bo, i);
      DecodeBits(bytes, bo, i);
      if i < n {
        MergeWordBits(n, d, src, mask, i);
        FieldMaskBits(n, bits, shift, i);
        BitShl(n, v, shift, i);
      }
    } else {
      EncodeBits(v, |bytes|, bo, i);
      DecodeBits(bytes, bo, i);
    }
  }

  /** A fetch reads exactly the field's bits. */
  lemma FetchBits(n: nat, bytes: seq<byte>, sign: bool, bits: nat, shift: nat, bo: ByteOrder, i: nat)
    requires FieldFits(n, |bytes|, bits, shift) && i < n
    ensures Bit(FetchPattern(n, bytes, sign, bits, shift, bo), i) ==
      var p, w := Place(bits, shift), Width(|bytes|, bits);
      if i < w then ContainerBit(bytes, bo, p + i) else sign && ContainerBit(bytes, bo, p + w - 1)
  {
    if bits == 0 {
      assert Place(bits, shift) == 0 && Width(|bytes|, bits) == 8 * |bytes|;
      FetchedWhole(n, bytes, sign, shift, bo, i);
      DecodeBits(bytes, bo, i);
      DecodeBits(bytes, bo, 8 * |bytes| - 1);
    } else {
      assert Place(bits, shift) == shift && Width(|bytes|, bits) == bits;
      FetchedField(n, bytes, sign, bits, shift, bo, i);
      DecodeBits(bytes, bo, shift + i);
      DecodeBits(bytes, bo, shift + bits - 1);
    }
  }

  lemma FetchedWhole(n: nat, bytes: seq<byte>, sign: bool, shift: nat, bo: ByteOrder, i: nat)
    requires 0 < 8 * |bytes| <= n && i < n
    ensures Bit(FetchPattern(n, bytes, sign, 0, shift, bo), i) ==
      if i < 8 * |bytes| then Bit(Decode(bytes, bo), i) else sign && Bit(Decode(bytes, bo), 8 * |bytes| - 1)
  {
    var d := Decode(bytes, bo);
    DecodeBound(bytes, bo);
    DecodeFits(n, bytes, bo);
    FetchedIs(n, bytes, sign, 0, shift, bo, d);
    ExtendBits(n, d, 8 * |bytes|, sign, i);
  }

  lemma FetchedField(n: nat, bytes: seq<byte>, sign: bool, bits: nat, shift: nat, bo: ByteOrder, i: nat)
    requires 0 < bits && bits + shift <= 8 * |bytes| <= n && i < n
    ensures Bit(FetchPattern(n, bytes, sign, bits, shift, bo), i) ==
      if i < bits then Bit(Decode(bytes, bo), shift + i) else sign && Bit(Decode(bytes, bo), shift + bits - 1)
  {
    var d := Decode(bytes, bo);
    DecodeBound(bytes, bo);
    DecodeFits(n, bytes, bo);
    FetchedIs(n, bytes, sign, bits, shift, bo, d);
    FieldOfExtended(n, d, 8 * |bytes|, sign, bits, shift, i);
  }

  lemma FetchedIs(n: nat, bytes: seq<byte>, sign: bool, bits: nat, shift: nat, bo: ByteOrder, d: nat)
    requires 8 * |bytes| <= n && bits <= n && d == Decode(bytes, bo) && d < Pow2(n)
    ensures var e := Extend(n, d, 8 * |bytes|, sign);
      FetchPattern(n, bytes, sign, bits, shift, bo) == if bits == 0 then e else FieldOf(n, e, bits, shift, sign)
  {
  }

  lemma FieldOfExtended(n: nat, d: nat, k: nat, sign: bool, bits: nat, shift: nat, i: nat)
    requires 0 < bits && bits + shift <= k <= n && d < Pow2(k) && i < n
    ensures d < Pow2(n)
    ensures Bit(FieldOf(n, Extend(n, d, k, sign), bits, shift, sign), i) ==
      if i < bits then Bit(d, shift + i) else sign && Bit(d, shift + bits - 1)
  {
    Pow2Monotone(k, n);
    var c := Extend(n, d, k, sign);
    FieldOfBits(n, c, bits, shift, sign, i);
    ExtendBits(n, d, k, sign, shift + bits - 1);
    if i < bits {
      ExtendBits(n, d, k, sign, shift + i);
    }
  }

  lemma FieldOfBits(n: nat, v: nat, bits: nat, shift: nat, sign: bool, i: nat)
    requires v < Pow2(n) && 0 < bits && bits + shift <= n && i < n
    ensures Bit(FieldOf(n, v, bits, shift, sign), i) ==
      if i < bits then Bit(v, shift + i) else sign && Bit(v, shift + bits - 1)
  {
    ShrBound(v, shift, n);
    var s := if shift > 0 then Shr(v, shift) else v;
    AndBound(s, FieldMask(n, bits, 0), n);
    var f := And(s, FieldMask(n, bits, 0));
    forall j: nat | j < n
      ensures Bit(f, j) == (j < bits && Bit(v, shift + j))
    {
      BitAnd(s, FieldMask(n, bits, 0), j);
      FieldMaskBits(n, bits, 0, j);
      BitShr(v, shift, j);
    }
    FieldBound(n, f, bits);
    ExtendBits(n, f, bits, sign, i);
  }

  lemma FieldBound(n: nat, f: nat, bits: nat)
    requires bits <= n && f < Pow2(n)
    requires forall j: nat | bits <= j < n :: !Bit(f, j)
    ensures f < Pow2(bits)
  {
    forall j: nat | j >= bits
      ensures !Bit(f, j)
    {
      if j >= n {
        BitBelow(f, n, j);
      }
    }
    BoundFromBits(f, bits);
  }

  // ----- The laws -----

  /** An n-bit pattern read in two's complement. */
  function SignedOf(n: nat, v: nat): int
    requires n > 0
  {
    if v >= Pow2(n - 1) then v - Pow2(n) else v
  }

  /** The n-bit pattern of an integer. */
  function PatternOf(n: nat, x: int): nat {
    x % Pow2(n)
  }

  /** Fetching what was stored gives the value modulo 2^bits, sign-extended when asked. */
  lemma FetchAfterStore(n: nat, bytes: seq<byte>, sign: bool, bits: nat, shift: nat, bo: ByteOrder, v: nat)
    requires FieldFits(n, |bytes|, bits, shift)
    ensures var w := Width(|bytes|, bits);
      var r := FetchPattern(n, StoreBytes(n, bytes, bits, shift, bo, v), sign, bits, shift, bo);
      if sign then SignedOf(n, r) == SignedOf(w, v % Pow2(w)) else r == v % Pow2(w)
  {
    var w, stored := Width(|bytes|, bits), StoreBytes(n, bytes, bits, shift, bo, v);
    var r, m := FetchPattern(n, stored, sign, bits, shift, bo), v % Pow2(w);
    ExtendIsSigned(n, m, w, sign);
    forall i: nat | i < n
      ensures Bit(r, i) == Bit(Extend(n, m, w, sign), i)
    {
      FetchedBit(n, bytes, sign, bits, shift, bo, v, i);
      ExtendBits(n, m, w, sign, i);
      BitMod(v, w, i);
      BitMod(v, w, w - 1);
    }
    SamePattern(n, r, Extend(n, m, w, sign));
  }

  lemma FetchedBit(n: nat, bytes: seq<byte>, sign: bool, bits: nat, shift: nat, bo: ByteOrder, v: nat, i: nat)
    requires FieldFits(n, |bytes|, bits, shift) && i < n
    ensures var w, stored := Width(|bytes|, bits), StoreBytes(n, bytes, bits, shift, bo, v);
      Bit(FetchPattern(n, stored, sign, bits, shift, bo), i) == if i < w then Bit(v, i) else sign && Bit(v, w - 1)
  {
    var stored, p, w := StoreBytes(n, bytes, bits, shift, bo, v), Place(bits, shift), Width(|bytes|, bits);
    FetchBits(n, stored, sign, bits, shift, bo, i);
    StoreBits(n, bytes, bits, shift, bo, v, p + i);
    StoreBits(n, bytes, bits, shift, bo, v, p + w - 1);
  }

  lemma ExtendIsSigned(n: nat, m: nat, w: nat, sign: bool)
    requires 0 < w <= n && m < Pow2(w)
    ensures m < Pow2(n)
    ensures if sign then SignedOf(n, Extend(n, m, w, sign)) == SignedOf(w, m) else Extend(n, m, w, sign) == m
  {
    Pow2Monotone(w, n);
    TopBit(m, w);
    AndBit(m, w - 1);
    if sign {
      ExtendValue(n, m, w);
      Pow2Monotone(w - 1, n - 1);
    }
  }

  /** The value of a sign extension. */
  lemma ExtendValue(n: nat, m: nat, w: nat)
    requires 0 < w <= n && m < Pow2(w)
    ensures m < Pow2(n)
    ensures Extend(n, m, w, true) == if m >= Pow2(w - 1) then m + Pow2(n) - Pow2(w) else m
  {
    Pow2Monotone(w, n);
    TopBit(m, w);
    if m >= Pow2(w - 1) {
      OnesAbove(n, m, w);
      assert Pow2(n) == Pow2(n - w) * Pow2(w) by { Pow2Add(n - w, w); }
      Distribute(Pow2(n - w), 1, Pow2(w));
    } else {
      AndBit(m, w - 1);
    }
  }

  lemma OnesAbove(n: nat, m: nat, w: nat)
    requires 0 < w <= n && m < Pow2(w) && Bit(m, w - 1)
    ensures m < Pow2(n)
    ensures Extend(n, m, w, true) == m + (Pow2(n - w) - 1) * Pow2(w)
  {
    Pow2Monotone(w, n);
    var e, ones := Extend(n, m, w, true), Pow2(n - w) - 1;
    forall i: nat
      ensures Bit(e, i) == Bit(m + ones * Pow2(w), i)
    {
      BitConcat(m, ones, w, i);
      if i < n {
        ExtendBits(n, m, w, true, i);
      } else {
        BitBelow(e, n, i);
      }
      if i >= w {
        BitOnes(n - w, i - w);
      }
    }
    BitExtensional(e, m + ones * Pow2(w));
  }

  /** Integers in the field's range come back as themselves. */
  lemma InRange(n: nat, w: nat, sign: bool, x: int)
    requires 0 < w <= n
    requires if sign then -1 * Pow2(w - 1) <= x < Pow2(w - 1) else 0 <= x < Pow2(w)
    ensures var m := PatternOf(n, x) % Pow2(w); if sign then SignedOf(w, m) == x else m == x
  {
    Pow2Monotone(w, n);
    ModOfMod(x, n, w);
    if x >= 0 {
      ModSmall(x, Pow2(w));
    } else {
      DivModUnique(x, Pow2(w), -1, x + Pow2(w));
    }
  }

  lemma ModOfMod(x: int, n: nat, w: nat)
    requires w <= n
    ensures PatternOf(n, x) % Pow2(w) == x % Pow2(w)
  {
    var p, q := Pow2(w), Pow2(n - w);
    assert Pow2(n) == q * p by { Pow2Add(n - w, w); }
    DivMod(x, Pow2(n));
    RemoveMultiple(x, x % Pow2(n), x / Pow2(n), q, p);
  }

  lemma RemoveMultiple(x: int, r: int, k: int, q: int, p: int)
    requires p > 0 && x == r + k * (q * p)
    ensures r % p == x % p
  {
    assert k * (q * p) == (k * q) * p;
    ModShift(r, k * q, p);
  }

  /** Stores to disjoint fields of one container commute. */
  lemma StoresCommute(n: nat, bytes: seq<byte>, bo: ByteOrder, bits1: nat, shift1: nat, v1: nat, bits2: nat,
                      shift2: nat, v2: nat)
    requires bits1 > 0 && bits2 > 0
    requires FieldFits(n, |bytes|, bits1, shift1) && FieldFits(n, |bytes|, bits2, shift2)
    requires shift1 + bits1 <= shift2 || shift2 + bits2 <= shift1
    ensures StoreBytes(n, StoreBytes(n, bytes, bits1, shift1, bo, v1), bits2, shift2, bo, v2)
         == StoreBytes(n, StoreBytes(n, bytes, bits2, shift2, bo, v2), bits1, shift1, bo, v1)
  {
    var s1, s2 := StoreBytes(n, bytes, bits1, shift1, bo, v1), StoreBytes(n, bytes, bits2, shift2, bo, v2);
    var s12, s21 := StoreBytes(n, s1, bits2, shift2, bo, v2), StoreBytes(n, s2, bits1, shift1, bo, v1);
    forall i: nat | i < 8 * |bytes|
      ensures ContainerBit(s12, bo, i) == ContainerBit(s21, bo, i)
    {
      StoreBits(n, bytes, bits1, shift1, bo, v1, i);
      StoreBits(n, bytes, bits2, shift2, bo, v2, i);
      StoreBits(n, s1, bits2, shift2, bo, v2, i);
      StoreBits(n, s2, bits1, shift1, bo, v1, i);
    }
    SameBytes(s12, s21, bo);
  }

  /** Storing back what was fetched changes nothing. */
  lemma StoreFetched(n: nat, bytes: seq<byte>, sign: bool, bits: nat, shift: nat, bo: ByteOrder)
    requires FieldFits(n, |bytes|, bits, shift)
    ensures StoreBytes(n, bytes, bits, shift, bo, FetchPattern(n, bytes, sign, bits, shift, bo)) == bytes
  {
    var v, p := FetchPattern(n, bytes, sign, bits, shift, bo), Place(bits, shift);
    var stored := StoreBytes(n, bytes, bits, shift, bo, v);
    forall i: nat | i < 8 * |bytes|
      ensures ContainerBit(stored, bo, i) == ContainerBit(bytes, bo, i)
    {
      StoreBits(n, bytes, bits, shift, bo, v, i);
      if p <= i < p + Width(|bytes|, bits) {
        FetchBits(n, bytes, sign, bits, shift, bo, i - p);
      }
    }
    SameBytes(stored, bytes, bo);
  }

  // ----- The routines on a native 64-bit word -----

  /** What the specification of a mask leaves no choice about. */
  lemma MaskedIs(n: nat, r: nat, v: nat, bits: nat, shift: nat, sign: bool)
    requires v < Pow2(n) && 0 < bits && bits + shift <= n
    requires Masked(n, r, if shift > 0 then Shr(v, shift) else v, bits, 0, sign)
    ensures r == FieldOf(n, v, bits, shift, sign)
  {
    var s := if shift > 0 then Shr(v, shift) else v;
    forall i: nat | i < n
      ensures Bit(r, i) == Bit(FieldOf(n, v, bits, shift, sign), i)
    {
      FieldOfBits(n, v, bits, shift, sign, i);
      assert Bit(r, i) == MaskedBit(s, bits, 0, sign, i);
      BitShr(v, shift, i);
      BitShr(v, shift, bits - 1);
    }
    SamePattern(n, r, FieldOf(n, v, bits, shift, sign));
  }

  lemma MergedIs(n: nat, r: nat, dest: nat, src: nat, bits: nat, shift: nat)
    requires dest < Pow2(n) && src < Pow2(n) && bits + shift <= n
    requires Merged(n, r, dest, src, bits, shift)
    ensures r == MergeWord(n, dest, src, FieldMask(n, bits, shift))
  {
    MergedByWord(n, dest, src, bits, shift);
    SamePattern(n, r, MergeWord(n, dest, src, FieldMask(n, bits, shift)));
  }

  /** Shift a field down and mask it. */
  method ExtractNative(c: nat, bits: nat, shift: nat, sign: bool) returns (v: nat)
    requires c < Pow2(64) && 0 < bits && bits + shift <= 64
    ensures v == FieldOf(64, c, bits, shift, sign)
  {
    var word := new NativeWord(c);
    if shift > 0 {
      word.ShiftInteger(shift, Right);
    }
    word.MaskInteger(bits, 0, sign);
    MaskedIs(64, word.Pattern(), c, bits, shift, sign);
    v := word.value;
  }

  /** Shifting into place, where needed, and merging. */
  lemma InsertedIs(n: nat, r: nat, orig: nat, v: nat, moved: nat, bits: nat, shift: nat)
    requires orig < Pow2(n) && v < Pow2(n) && bits + shift <= n
    requires moved == if shift > 0 then Shifted(n, v, shift, Left) else v
    requires Merged(n, r, orig, moved, bits, shift)
    ensures r == MergeWord(n, orig, Shl(n, v, shift), FieldMask(n, bits, shift))
  {
    UnshiftedIs(n, v);
    MergedIs(n, r, orig, moved, bits, shift);
  }

  /** Shift a value up and merge it into a container. */
  method InsertNative(orig: nat, v: nat, bits: nat, shift: nat) returns (r: nat)
    requires orig < Pow2(64) && v < Pow2(64) && 0 < bits && bits + shift <= 64
    ensures r == MergeWord(64, orig, Shl(64, v, shift), FieldMask(64, bits, shift))
  {
    var src := new NativeWord(v);
    var dest := new NativeWord(orig);
    if shift > 0 {
      src.ShiftInteger(shift, Left);
    }
    dest.MergeInteger(src.value, bits, shift);
    InsertedIs(64, dest.Pattern(), orig, v, src.Pattern(), bits, shift);
    r := dest.value;
  }

  method FetchNative(size: nat, sign: bool, bits: nat, shift: nat, bo: ByteOrder, src: array<byte>, at: nat)
    returns (v: nat)
    requires IntSize(size) && at + size <= src.Length
    requires bits > 0 ==> bits + shift <= 64
    ensures bits <= 64 && v == FetchPattern(64, src[at..at + size], sign, bits, shift, bo)
  {
    DecodeFits(64, src[at..at + size], bo);
    v := Extend(64, Decode(src[at..at + size], bo), 8 * size, sign);
    if bits > 0 {
      v := ExtractNative(v, bits, shift, sign);
    }
  }

  /** A store writes the value, or the fetched container with the shifted value merged in. */
  lemma StoreIsFetchAndMerge(n: nat, bytes: seq<byte>, bits: nat, shift: nat, bo: ByteOrder, v: nat)
    requires 8 * |bytes| <= n && (bits > 0 ==> bits + shift <= n)
    ensures StoreBytes(n, bytes, bits, shift, bo, v) == if bits == 0 then Encode(v, |bytes|, bo) else
      Encode(MergeWord(n, FetchPattern(n, bytes, false, 0, 0, bo), Shl(n, v, shift), FieldMask(n, bits, shift)),
             |bytes|, bo)
  {
  }

  /** The bytes to write, the merged container's for a bitfield. */
  method BytesNative(size: nat, bits: nat, shift: nat, bo: ByteOrder, dest: array<byte>, at: nat, v: nat)
    returns (bytes: seq<byte>)
    requires IntSize(size) && at + size <= dest.Length && v < Pow2(64)
    requires bits > 0 ==> bits + shift <= 64
    ensures bytes == StoreBytes(64, dest[at..at + size], bits, shift, bo, v)
  {
    var word := v;
    StoreIsFetchAndMerge(64, dest[at..at + size], bits, shift, bo, v);
    if bits > 0 {
      var orig := FetchNative(size, false, 0, 0, bo, dest, at);
      word := InsertNative(orig, v, bits, shift);
    }
    bytes := Encode(word, size, bo);
  }

  method StoreNative(size: nat, bits: nat, shift: nat, bo: ByteOrder, dest: array<byte>, at: nat, v: nat)
    requires IntSize(size) && at + size <= dest.Length && v < Pow2(64)
    requires bits > 0 ==> bits + shift <= 64
    modifies dest
    ensures dest[at..at + size] == StoreBytes(64, old(dest[at..at + size]), bits, shift, bo, v)
    ensures forall p | 0 <= p < dest.Length && !(at <= p < at + size) :: dest[p] == old(dest[p])
  {
    var bytes := BytesNative(size, bits, shift, bo, dest, at, v);
    SetBytes(dest, at, bytes);
  }

  lemma UnshiftedIs(n: nat, v: nat)
    requires v < Pow2(n)
    ensures Shl(n, v, 0) == v
  {
    ShlIsMul(n, v, 0);
    ModSmall(v, Pow2(n));
  }

  method SetBytes(dest: array<byte>, at: nat, bytes: seq<byte>)
    requires at + |bytes| <= dest.Length
    modifies dest
    ensures dest[at..at + |bytes|] == bytes
    ensures forall p | 0 <= p < dest.Length && !(at <= p < at + |bytes|) :: dest[p] == old(dest[p])
  {
    forall k | 0 <= k < |bytes| {
      dest[at + k] := bytes[k];
    }
  }

  // ----- The routines on two 32-bit halves -----

  /** Fetching less than eight bytes into halves: the low half's sign fills the high half. */
  function SmallHalves(n: nat, d: nat, k: nat, sign: bool): (r: Halves)
    requires d < Pow2(n) && n > 0
    ensures r.Fits(n)
  {
    var low := Extend(n, d, k, sign);
    Halves(if sign && And(low, Pow2(n - 1)) != 0 then AllBits(n) else 0, low)
  }

  lemma SmallHalvesBit(n: nat, d: nat, k: nat, sign: bool, i: nat)
    requires 0 < k <= n && d < Pow2(k) && d < Pow2(n) && d < Pow2(2 * n) && i < 2 * n
    ensures Bit(SmallHalves(n, d, k, sign).Joined(n), i) == Bit(Extend(2 * n, d, k, sign), i)
  {
    var x := SmallHalves(n, d, k, sign);
    AndBit(x.l, n - 1);
    ExtendBits(n, d, k, sign, n - 1);
    JoinedBits(n, x, i);
    ExtendBits(2 * n, d, k, sign, i);
    if i < n {
      ExtendBits(n, d, k, sign, i);
    } else {
      BitOnes(n, i - n);
      BitZero(i - n);
    }
  }

  lemma SmallHalvesJoin(n: nat, d: nat, k: nat, sign: bool)
    requires 0 < k <= n && d < Pow2(k)
    ensures d < Pow2(n) && d < Pow2(2 * n)
    ensures SmallHalves(n, d, k, sign).Joined(n) == Extend(2 * n, d, k, sign)
  {
    Pow2Monotone(k, n);
    Pow2Monotone(n, 2 * n);
    var x := SmallHalves(n, d, k, sign);
    JoinedBits(n, x, 0);
    forall i: nat | i < 2 * n
      ensures Bit(x.Joined(n), i) == Bit(Extend(2 * n, d, k, sign), i)
    {
      SmallHalvesBit(n, d, k, sign, i);
    }
    SamePattern(2 * n, x.Joined(n), Extend(2 * n, d, k, sign));
  }

  function OrderedHalves(bo: ByteOrder, first: nat, second: nat): Halves {
    if bo == BigEndian then Halves(first, second) else Halves(second, first)
  }

  /** Two groups of m bytes, read one after the other. */
  lemma GroupsJoin(m: nat, bytes: seq<byte>, bo: ByteOrder)
    requires |bytes| == 2 * m
    ensures var x := OrderedHalves(bo, Decode(bytes[..m], bo), Decode(bytes[m..], bo));
      x.Fits(8 * m) && x.Joined(8 * m) == Decode(bytes, bo)
  {
    var x := OrderedHalves(bo, Decode(bytes[..m], bo), Decode(bytes[m..], bo));
    DecodeBound(bytes[..m], bo);
    DecodeBound(bytes[m..], bo);
    DecodeBound(bytes, bo);
    JoinedBits(8 * m, x, 0);
    assert bytes == bytes[..m] + bytes[m..];
    forall i: nat | i < 16 * m
      ensures Bit(x.Joined(8 * m), i) == Bit(Decode(bytes, bo), i)
    {
      JoinedBits(8 * m, x, i);
      DecodeBits(bytes, bo, i);
      DecodeBits(bytes[..m], bo, if i < 8 * m then i else i - 8 * m);
      DecodeBits(bytes[m..], bo, if i < 8 * m then i else i - 8 * m);
      GroupBit(bytes[..m], bytes[m..], bo, i);
    }
    SamePattern(16 * m, x.Joined(8 * m), Decode(bytes, bo));
  }

  /** Bit i of two groups of bytes, the less significant one first in little endian order. */
  lemma GroupBit(a: seq<byte>, b: seq<byte>, bo: ByteOrder, i: nat)
    ensures ContainerBit(a + b, bo, i) ==
      var low, high := if bo == LittleEndian then a else b, if bo == LittleEndian then b else a;
      if i < 8 * |low| then ContainerBit(low, bo, i) else ContainerBit(high, bo, i - 8 * |low|)
    decreases |a| + |b|
  {
    if bo == LittleEndian && a != [] {
      assert (a + b)[1..] == a[1..] + b;
      if i >= 8 {
        GroupBit(a[1..], b, bo, i - 8);
      }
    } else if bo == BigEndian && b != [] {
      assert (a + b)[..|a + b| - 1] == a + b[..|b| - 1];
      if i >= 8 {
        GroupBit(a, b[..|b| - 1], bo, i - 8);
      }
    } else {
      assert a + b == if bo == LittleEndian then b else a;
    }
  }

  method FetchSmall(size: nat, sign: bool, bo: ByteOrder, bytes: seq<byte>) returns (x: Halves)
    requires 0 < |bytes| == size <= 4
    ensures x.Fits(32) && Decode(bytes, bo) < Pow2(64)
    ensures x.Joined(32) == Extend(64, Decode(bytes, bo), 8 * size, sign)
  {
    DecodeBound(bytes, bo);
    SmallHalvesJoin(32, Decode(bytes, bo), 8 * size, sign);
    x := SmallHalves(32, Decode(bytes, bo), 8 * size, sign);
  }

  method FetchLarge(sign: bool, bo: ByteOrder, bytes: seq<byte>) returns (x: Halves)
    requires |bytes| == 8
    ensures x.Fits(32) && Decode(bytes, bo) < Pow2(64)
    ensures x.Joined(32) == Extend(64, Decode(bytes, bo), 64, sign)
  {
    GroupsJoin(4, bytes, bo);
    DecodeFits(64, bytes, bo);
    WholeWord(64, Decode(bytes, bo), sign);
    x := OrderedHalves(bo, Decode(bytes[..4], bo), Decode(bytes[4..], bo));
  }

  /** Sign extension from the full width adds nothing. */
  lemma WholeWord(n: nat, v: nat, sign: bool)
    requires v < Pow2(n) && n > 0
    ensures Extend(n, v, n, sign) == v
  {
    forall i: nat | i < n
      ensures Bit(Extend(n, v, n, sign), i) == Bit(v, i)
    {
      ExtendBits(n, v, n, sign, i);
    }
    SamePattern(n, Extend(n, v, n, sign), v);
  }

  method ExtractSplit(c: Halves, bits: nat, shift: nat, sign: bool) returns (x: Halves)
    requires c.Fits(32) && c.Joined(32) < Pow2(64) && 0 < bits && bits + shift <= 64
    ensures x.Fits(32) && x.Joined(32) == FieldOf(64, c.Joined(32), bits, shift, sign)
  {
    var word := new SplitWord(c.h, c.l);
    if shift > 0 {
      word.ShiftInteger(shift, Right);
    }
    word.MaskInteger(bits, 0, sign);
    MaskedIs(64, word.Pattern(), c.Joined(32), bits, shift, sign);
    x := Halves(word.h, word.l);
  }

  method InsertSplit(orig: Halves, v: Halves, bits: nat, shift: nat) returns (x: Halves)
    requires orig.Fits(32) && v.Fits(32) && 0 < bits && bits + shift <= 64
    requires orig.Joined(32) < Pow2(64) && v.Joined(32) < Pow2(64)
    ensures x.Fits(32)
    ensures x.Joined(32) == MergeWord(64, orig.Joined(32), Shl(64, v.Joined(32), shift), FieldMask(64, bits, shift))
  {
    var src := new SplitWord(v.h, v.l);
    var dest := new SplitWord(orig.h, orig.l);
    if shift > 0 {
      src.ShiftInteger(shift, Left);
    }
    dest.MergeInteger(Halves(src.h, src.l), bits, shift);
    InsertedIs(64, dest.Pattern(), orig.Joined(32), v.Joined(32), src.Pattern(), bits, shift);
    x := Halves(dest.h, dest.l);
  }

  method FetchSplit(size: nat, sign: bool, bits: nat, shift: nat, bo: ByteOrder, src: array<byte>, at: nat)
    returns (x: Halves)
    requires IntSize(size) && at + size <= src.Length
    requires bits > 0 ==> bits + shift <= 64
    ensures x.Fits(32)
    ensures bits <= 64 && x.Joined(32) == FetchPattern(64, src[at..at + size], sign, bits, shift, bo)
  {
    if size < 8 {
      x := FetchSmall(size, sign, bo, src[at..at + size]);
    } else {
      x := FetchLarge(sign, bo, src[at..at + size]);
    }
    if bits > 0 {
      x := ExtractSplit(x, bits, shift, sign);
    }
  }

  /** What the split branch writes. */
  function EncodeHalves(m: nat, x: Halves, size: nat, bo: ByteOrder): (bytes: seq<byte>) {
    if size != 2 * m then Encode(x.l, size, bo)
    else if bo == BigEndian then Encode(x.h, m, bo) + Encode(x.l, m, bo)
    else Encode(x.l, m, bo) + Encode(x.h, m, bo)
  }

  lemma EncodeHalvesBit(m: nat, x: Halves, size: nat, bo: ByteOrder, i: nat)
    requires x.Fits(8 * m) && (size <= m || size == 2 * m) && i < 8 * size
    ensures ContainerBit(EncodeHalves(m, x, size, bo), bo, i) == Bit(x.Joined(8 * m), i)
  {
    JoinedBits(8 * m, x, i);
    EncodeBits(x.l, if size == 2 * m then m else size, bo, i);
    if size == 2 * m {
      if bo == BigEndian {
        GroupBit(Encode(x.h, m, bo), Encode(x.l, m, bo), bo, i);
      } else {
        GroupBit(Encode(x.l, m, bo), Encode(x.h, m, bo), bo, i);
      }
      if i >= 8 * m {
        EncodeBits(x.h, m, bo, i - 8 * m);
      }
    }
  }

  lemma EncodeHalvesJoins(m: nat, x: Halves, size: nat, bo: ByteOrder)
    requires x.Fits(8 * m) && (size <= m || size == 2 * m)
    ensures EncodeHalves(m, x, size, bo) == Encode(x.Joined(8 * m), size, bo)
  {
    var bytes, whole := EncodeHalves(m, x, size, bo), Encode(x.Joined(8 * m), size, bo);
    forall i: nat | i < 8 * size
      ensures ContainerBit(bytes, bo, i) == ContainerBit(whole, bo, i)
    {
      EncodeBits(x.Joined(8 * m), size, bo, i);
      EncodeHalvesBit(m, x, size, bo, i);
    }
    SameBytes(bytes, whole, bo);
  }

  method EncodeSplit(x: Halves, size: nat, bo: ByteOrder) returns (bytes: seq<byte>)
    requires x.Fits(32) && IntSize(size)
    ensures bytes == Encode(x.Joined(32), size, bo)
  {
    EncodeHalvesJoins(4, x, size, bo);
    bytes := EncodeHalves(4, x, size, bo);
  }

  method BytesSplit(size: nat, bits: nat, shift: nat, bo: ByteOrder, dest: array<byte>, at: nat, v: Halves)
    returns (bytes: seq<byte>)
    requires IntSize(size) && at + size <= dest.Length && v.Fits(32)
    requires bits > 0 ==> bits + shift <= 64
    ensures bytes == StoreBytes(64, dest[at..at + size], bits, shift, bo, v.Joined(32))
  {
    var word := v;
    JoinedBits(32, v, 0);
    StoreIsFetchAndMerge(64, dest[at..at + size], bits, shift, bo, v.Joined(32));
    if bits > 0 {
      var orig := FetchSplit(size, false, 0, 0, bo, dest, at);
      word := InsertSplit(orig, v, bits, shift);
    }
    bytes := EncodeSplit(word, size, bo);
  }

  method StoreSplit(size: nat, bits: nat, shift: nat, bo: ByteOrder, dest: array<byte>, at: nat, v: Halves)
    requires IntSize(size) && at + size <= dest.Length && v.Fits(32)
    requires bits > 0 ==> bits + shift <= 64
    modifies dest
    ensures dest[at..at + size] == StoreBytes(64, old(dest[at..at + size]), bits, shift, bo, v.Joined(32))
    ensures forall p | 0 <= p < dest.Length && !(at <= p < at + size) :: dest[p] == old(dest[p])
  {
    var bytes := BytesSplit(size, bits, shift, bo, dest, at, v);
    SetBytes(dest, at, bytes);
  }
}
