/**
 Integers that come and go as strings: a value that is stored may be given as a string, and one that is
 fetched may be asked for as one.
 */
module IntegerValues {
  import opened Bits
  import opened CTypes
  import opened IntegerCodec
  import opened IntegerMemory
  import opened IntegerStrings

  /** `fetch_integer` with native 64-bit integers. */
  method FetchIntegerNative(size: nat, sign: bool, bits: nat, shift: nat, bo: ByteOrder, src: array<byte>, at: nat,
                            asString: bool)
    returns (v: nat, str: Option<string>)
    requires IntSize(size) && at + size <= src.Length
    requires bits > 0 ==> bits + shift <= 64
    ensures bits <= 64 && v == FetchPattern(64, src[at..at + size], sign, bits, shift, bo) && v < W64
    ensures str == if asString then Some(Printed(v, sign)) else None
  {
    v := FetchNative(size, sign, bits, shift, bo, src, at);
    str := None;
    Words();
    if asString {
      var s, _ := Integer2StringNative(v, sign);
      str := Some(s);
    }
  }

  /** `fetch_integer` on two halves. */
  method FetchIntegerSplit(size: nat, sign: bool, bits: nat, shift: nat, bo: ByteOrder, src: array<byte>, at: nat,
                           asString: bool)
    returns (x: Halves, str: Option<string>)
    requires IntSize(size) && at + size <= src.Length
    requires bits > 0 ==> bits + shift <= 64
    ensures bits <= 64 && x.Fits(32) && x.Joined(32) == FetchPattern(64, src[at..at + size], sign, bits, shift, bo)
    ensures x.Joined(32) < W64 && str == if asString then Some(Printed(x.Joined(32), sign)) else None
  {
    x := FetchSplit(size, sign, bits, shift, bo, src, at);
    str := None;
    Words();
    HalvesValue(x);
    if asString {
      var s, _ := Integer2StringSplit(x.h, x.l, sign);
      str := Some(s);
    }
  }

  lemma HalvesValue(x: Halves)
    requires x.Fits(32)
    ensures x.h < W32 && x.l < W32 && x.Joined(32) == x.h * W32 + x.l
  {
    Words();
    JoinedIs(32, x.h, x.l);
  }

  /** What is stored: the value, or what the string says. */
  ghost function Given(s: Option<string>, v: nat): nat {
    if s.Some? then ParsedPattern(s.value) else v
  }

  /** `store_integer` with native 64-bit integers. */
  method StoreIntegerNative(size: nat, bits: nat, shift: nat, bo: ByteOrder, dest: array<byte>, at: nat,
                            s: Option<string>, v: nat)
    requires IntSize(size) && at + size <= dest.Length && v < W64
    requires bits > 0 ==> bits + shift <= 64
    modifies dest
    ensures dest[at..at + size] == StoreBytes(64, old(dest[at..at + size]), bits, shift, bo, Given(s, v))
    ensures forall p | 0 <= p < dest.Length && !(at <= p < at + size) :: dest[p] == old(dest[p])
  {
    var value := v;
    if s.Some? {
      var negative;
      negative, value := String2IntegerNative(s.value);
    }
    Words();
    StoreNative(size, bits, shift, bo, dest, at, value);
  }

  /** `store_integer` on two halves. */
  method StoreIntegerSplit(size: nat, bits: nat, shift: nat, bo: ByteOrder, dest: array<byte>, at: nat,
                           s: Option<string>, x: Halves)
    requires IntSize(size) && at + size <= dest.Length && x.Fits(32)
    requires bits > 0 ==> bits + shift <= 64
    modifies dest
    ensures dest[at..at + size] == StoreBytes(64, old(dest[at..at + size]), bits, shift, bo, Given(s, x.Joined(32)))
    ensures forall p | 0 <= p < dest.Length && !(at <= p < at + size) :: dest[p] == old(dest[p])
  {
    var value := HalvesGiven(s, x);
    StoreSplit(size, bits, shift, bo, dest, at, value);
  }

  method HalvesGiven(s: Option<string>, x: Halves) returns (value: Halves)
    requires x.Fits(32)
    ensures value.Fits(32) && value.Joined(32) == Given(s, x.Joined(32))
  {
    value := x;
    if s.Some? {
      var negative, h, l := String2IntegerSplit(s.value);
      Words();
      value := Halves(h, l);
      HalvesValue(value);
    }
  }

  // ----- Strings come back -----

  lemma SignedIsPattern(n: nat, r: nat, x: int)
    requires r < Pow2(n) && n > 0 && SignedOf(n, r) == x
    ensures r == PatternOf(n, x)
  {
    if r >= Pow2(n - 1) {
      DivModUnique(x, Pow2(n), -1, r);
    } else {
      DivModUnique(x, Pow2(n), 0, r);
    }
  }

  /** An integer in the range of a field is stored and fetched as the same pattern. */
  lemma PatternComesBack(n: nat, bytes: seq<byte>, sign: bool, bits: nat, shift: nat, bo: ByteOrder, x: int)
    requires FieldFits(n, |bytes|, bits, shift) && InField(Width(|bytes|, bits), sign, x)
    ensures var v := PatternOf(n, x);
      v < Pow2(n)
      && FetchPattern(n, StoreBytes(n, bytes, bits, shift, bo, v), sign, bits, shift, bo) == v
  {
    var v, w := PatternOf(n, x), Width(|bytes|, bits);
    FetchAfterStore(n, bytes, sign, bits, shift, bo, v);
    InRange(n, w, sign, x);
    var r := FetchPattern(n, StoreBytes(n, bytes, bits, shift, bo, v), sign, bits, shift, bo);
    if sign {
      SignedIsPattern(n, r, x);
    } else {
      Pow2Monotone(w, n);
      ModSmall(x, Pow2(n));
    }
  }

  /** What a field of w bits can hold. */
  ghost predicate InField(w: nat, sign: bool, x: int) {
    w > 0 && if sign then -1 * Pow2(w - 1) <= x < Pow2(w - 1) else 0 <= x < Pow2(w)
  }

  /** An integer in the range of a field, stored as a decimal string, is read back as the same string. */
  lemma StringComesBack(bytes: seq<byte>, sign: bool, bits: nat, shift: nat, bo: ByteOrder, x: int)
    requires FieldFits(64, |bytes|, bits, shift) && InField(Width(|bytes|, bits), sign, x)
    ensures PatternOf(64, x) < W64
    ensures var s := Printed(PatternOf(64, x), sign);
      var r := FetchPattern(64, StoreBytes(64, bytes, bits, shift, bo, ParsedPattern(s)), sign, bits, shift, bo);
      r < W64 && Printed(r, sign) == s
  {
    Words();
    PatternComesBack(64, bytes, sign, bits, shift, bo, x);
    PrintThenParse(PatternOf(64, x), sign);
  }
}
