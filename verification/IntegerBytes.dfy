/**
 What bytes mean as integers: numbers of base 256, written from either end.
 */
module IntegerBytes {
  import opened Bits
  import opened IntegerCodec
  import opened IntegerMemory

  /** The number that bytes stand for. */
  ghost function NumberOf(bytes: seq<byte>, bo: ByteOrder): nat
    decreases |bytes|
  {
    if bytes == [] then 0
    else if bo == LittleEndian then bytes[0] + 256 * NumberOf(bytes[1..], bo)
    else bytes[|bytes| - 1] + 256 * NumberOf(bytes[..|bytes| - 1], bo)
  }

  /** The integer in a field of the number: all of it if no bits are asked for. */
  ghost function FieldIn(bytes: seq<byte>, bits: nat, shift: nat, signed: bool, bo: ByteOrder): int
    requires bytes != []
  {
    var w, low := if bits > 0 then bits else 8 * |bytes|, if bits > 0 then shift else 0;
    var f := (NumberOf(bytes, bo) / Pow2(low)) % Pow2(w);
    if signed && f >= Pow2(w - 1) then f - Pow2(w) else f
  }

  /** Where the byte of significance k is. */
  function PlaceOf(size: nat, k: nat, bo: ByteOrder): nat
    requires k < size
  {
    if bo == LittleEndian then k else size - 1 - k
  }

  // ----- Bytes and numbers -----

  lemma {:induction false} DecodeIsNumber(bytes: seq<byte>, bo: ByteOrder)
    ensures Decode(bytes, bo) == NumberOf(bytes, bo)
    decreases |bytes|
  {
    if bytes != [] {
      DecodeIsNumber(Rest(bytes, bo), bo);
      assert Pow2(8) == 256;
      OrDisjoint(Low(bytes, bo), NumberOf(Rest(bytes, bo), bo), 8);
    }
  }

  /** The byte of significance k is digit k of the number. */
  lemma {:induction false} ByteIsDigit(bytes: seq<byte>, bo: ByteOrder, k: nat)
    requires k < |bytes|
    ensures bytes[PlaceOf(|bytes|, k, bo)] == (NumberOf(bytes, bo) / Pow2(8 * k)) % 256
    decreases |bytes|
  {
    var low, rest := Low(bytes, bo), Rest(bytes, bo);
    var v := NumberOf(rest, bo);
    assert NumberOf(bytes, bo) == low + 256 * v;
    DivModUnique(low + 256 * v, 256, v, low);
    if k > 0 {
      ByteIsDigit(rest, bo, k - 1);
      Pow2Add(8, 8 * (k - 1));
      assert Pow2(8) == 256;
      DivDiv(low + 256 * v, 256, Pow2(8 * (k - 1)));
      assert bytes[PlaceOf(|bytes|, k, bo)] == rest[PlaceOf(|rest|, k - 1, bo)];
    }
  }

  /** What is stored without a field: digit k of the value is the byte of significance k. */
  lemma {:induction false} StoredByte(v: nat, size: nat, bo: ByteOrder, k: nat)
    requires k < size
    ensures Encode(v, size, bo)[PlaceOf(size, k, bo)] == (v / Pow2(8 * k)) % 256
    decreases size
  {
    if k == 0 {
      FirstByte(v, size, bo);
    } else {
      StoredByte(Shr(v, 8), size - 1, bo, k - 1);
      EncodePart(v, size, bo, k);
      NextDigit(v, 8 * (k - 1));
    }
  }

  lemma {:induction false} FirstByte(v: nat, size: nat, bo: ByteOrder)
    requires size > 0
    ensures Encode(v, size, bo)[PlaceOf(size, 0, bo)] == (v / Pow2(0)) % 256
  {
    AndOnes(v, 8);
    assert Pow2(8) == 256 && Encode(v, size, bo)[PlaceOf(size, 0, bo)] == LowByte(v);
  }

  lemma NextDigit(v: nat, k: nat)
    ensures (Shr(v, 8) / Pow2(k)) % 256 == (v / Pow2(k + 8)) % 256
  {
    ShrIsDiv(v, 8);
    Pow2Add(8, k);
    DivDiv(v, Pow2(8), Pow2(k));
  }

  lemma {:induction false} EncodePart(v: nat, size: nat, bo: ByteOrder, k: nat)
    requires 0 < k < size
    ensures Encode(v, size, bo)[PlaceOf(size, k, bo)] == Encode(Shr(v, 8), size - 1, bo)[PlaceOf(size - 1, k - 1, bo)]
  {
  }

  // ----- Fetching -----

  /** Fetching gives the integer in the field, sign-extended to n bits. */
  lemma {:induction false} FetchMeans(n: nat, bytes: seq<byte>, sign: bool, bits: nat, shift: nat, bo: ByteOrder)
    requires FieldFits(n, |bytes|, bits, shift)
    ensures var r := FetchPattern(n, bytes, sign, bits, shift, bo);
      (if sign then SignedOf(n, r) else r) == FieldIn(bytes, bits, shift, sign, bo)
  {
    var p, w := Place(bits, shift), Width(|bytes|, bits);
    var f := (Decode(bytes, bo) / Pow2(p)) % Pow2(w);
    FieldInIs(bytes, bits, shift, sign, bo, f);
    ExtendIsSigned(n, f, w, sign);
    FetchIsExtension(n, bytes, sign, bits, shift, bo, f);
  }

  lemma {:induction false} FieldInIs(bytes: seq<byte>, bits: nat, shift: nat, sign: bool, bo: ByteOrder, f: nat)
    requires bytes != [] && f == (Decode(bytes, bo) / Pow2(Place(bits, shift))) % Pow2(Width(|bytes|, bits))
    ensures FieldIn(bytes, bits, shift, sign, bo) == if sign then SignedOf(Width(|bytes|, bits), f) else f
  {
    DecodeIsNumber(bytes, bo);
  }

  lemma {:induction false} FetchIsExtension(n: nat, bytes: seq<byte>, sign: bool, bits: nat, shift: nat, bo: ByteOrder,
                                            f: nat)
    requires FieldFits(n, |bytes|, bits, shift)
    requires f == (Decode(bytes, bo) / Pow2(Place(bits, shift))) % Pow2(Width(|bytes|, bits))
    ensures f < Pow2(n) && FetchPattern(n, bytes, sign, bits, shift, bo) == Extend(n, f, Width(|bytes|, bits), sign)
  {
    var p, w := Place(bits, shift), Width(|bytes|, bits);
    var r := FetchPattern(n, bytes, sign, bits, shift, bo);
    Pow2Monotone(w, n);
    var e := Extend(n, f, w, sign);
    forall i: nat
      ensures Bit(r, i) == Bit(e, i)
    {
      if i < n {
        FetchBits(n, bytes, sign, bits, shift, bo, i);
        ExtendBits(n, f, w, sign, i);
        FieldBit(bytes, bo, p, w, i);
        FieldBit(bytes, bo, p, w, w - 1);
      } else {
        BitBelow(r, n, i);
        BitBelow(e, n, i);
      }
    }
    BitExtensional(r, e);
  }

  lemma FieldBit(bytes: seq<byte>, bo: ByteOrder, p: nat, w: nat, i: nat)
    ensures Bit((Decode(bytes, bo) / Pow2(p)) % Pow2(w), i) == (i < w && ContainerBit(bytes, bo, p + i))
  {
    var d := Decode(bytes, bo);
    ShrIsDiv(d, p);
    BitMod(Shr(d, p), w, i);
    BitShr(d, p, i);
    DecodeBits(bytes, bo, p + i);
  }

  // ----- Digits of negative numbers -----

  /** A value that a whole container holds has the container's bytes as digits. */
  lemma {:induction false} DigitsOfValue(bytes: seq<byte>, signed: bool, bo: ByteOrder, k: nat)
    requires k < |bytes|
    ensures bytes[PlaceOf(|bytes|, k, bo)] == (FieldIn(bytes, 0, 0, signed, bo) / Pow2(8 * k)) % 256
  {
    var n, v, w := NumberOf(bytes, bo), FieldIn(bytes, 0, 0, signed, bo), 8 * |bytes|;
    ByteIsDigit(bytes, bo, k);
    DecodeIsNumber(bytes, bo);
    DecodeBound(bytes, bo);
    assert n / Pow2(0) == n;
    ModSmall(n, Pow2(w));
    if v != n {
      BorrowedDigit(n, 8 * k, w);
    }
  }

  /** Taking away a higher power leaves the digits below it. */
  lemma BorrowedDigit(n: int, k: nat, w: nat)
    requires k + 8 <= w
    ensures ((n - Pow2(w)) / Pow2(k)) % 256 == (n / Pow2(k)) % 256
  {
    PowerParts(w - k - 8, k);
    Borrowed(n, Pow2(k), Pow2(w - k - 8));
  }

  lemma PowerParts(a: nat, k: nat)
    ensures Pow2(a + k + 8) == Pow2(a) * (256 * Pow2(k))
  {
    ByteStep(k);
    Pow2Add(a, k + 8);
  }

  lemma ByteStep(k: nat)
    ensures Pow2(k + 8) == 256 * Pow2(k)
  {
    Pow2Add(8, k);
    assert Pow2(8) == 256;
  }

  lemma Borrowed(n: int, p: int, top: int)
    requires p > 0
    ensures ((n - top * (256 * p)) / p) % 256 == (n / p) % 256
  {
    Regroup(top, p);
    ModShift(n, -256 * top, p);
    ModShift(n / p, -1 * top, 256);
  }

  lemma Regroup(top: int, p: int)
    ensures (-256 * top) * p == -1 * (top * (256 * p)) && (-1 * top) * 256 == -256 * top
  {
  }
}
