/**
 Reading integer constants into the simulated type, with the tests for constants that are
 too large (section 6.4.4.1 of ISO/IEC 9899:1999 wants the exact value or a diagnostic).
 */
module SimulConstants {
  import opened Bits
  import opened Numerals
  import opened NumeralLiterals
  import opened SimulWords

  /** A constant read, whether the signed type holds it too, and where it ends. */
  datatype Constant = TooLarge | Constant(value: Num, signedToo: bool, end: nat)

  /** The constant at the start of s: its exact value, or an error exactly when it has none. */
  ghost predicate Reads(w: Widths, s: string, base: nat, result: Constant)
    requires w.Valid()
  {
    var n := DigitRun(s, base);
    var v := Number(s[..n], base);
    if v >= Modulus(w) then result.TooLarge?
    else
      && result.Constant? && Fits(w, result.value) && Val(w, result.value) == v
      && (result.signedToo <==> v < Pow2(w.numBits - 1))
      && result.end == n
  }

  // ----- Octal and hexadecimal -----

  /** The high word's test before a shift by k tells exactly whether the next value fits. */
  lemma ShiftGuard(w: Widths, z: Num, k: nat, d: nat)
    requires w.Valid() && Fits(w, z) && k <= w.Msw() && d < Pow2(k)
    ensures z.msw > (Pow2(w.Msw()) - 1) / Pow2(k) <==> Val(w, z) * Pow2(k) + d >= Modulus(w)
  {
    WidthFacts(w);
    var p, q, l := Pow2(k), Pow2(w.Msw() - k), Pow2(w.Lsw());
    assert Pow2(w.Msw()) == q * p by { Pow2Add(w.Msw() - k, k); }
    Distribute(q, 1, p);
    DivModUnique(q * p - 1, p, q - 1, p - 1);
    GuardByDigits(z.lsw, z.msw, d, q, l, p);
  }

  lemma GuardByDigits(lo: int, hi: int, d: int, q: int, l: int, p: int)
    requires 0 <= lo < l && 0 <= d < p
    ensures hi >= q <==> (lo + hi * l) * p + d >= (q * p) * l
  {
    var v := lo + hi * l;
    assert (q * p) * l == (q * l) * p;
    if hi >= q {
      MulLe(q, hi, l);
      MulLe(q * l, v, p);
    } else {
      MulLe(hi + 1, q, l);
      Distribute(hi, 1, l);
      MulLe(v + 1, q * l, p);
      Distribute(v, 1, p);
    }
  }

  /** Shifting in k zero bits and or-ing the digit appends it. */
  lemma AppendDigit(w: Widths, u: nat, z: Num, k: nat, d: nat)
    requires w.Valid() && Fits(w, z) && 0 < k <= w.Lsw() && k < w.numBits < Pow2(u) && d < Pow2(k)
    requires Val(w, z) * Pow2(k) + d < Modulus(w)
    ensures LshDefined(w, u, k)
    ensures var s := Lsh(w, u, z, k);
      var r := Num(s.msw, Or(s.lsw, d));
      Fits(w, r) && Val(w, r) == Val(w, z) * Pow2(k) + d
  {
    LshExact(w, u, z, k);
    var s := Lsh(w, u, z, k);
    var p, e := Pow2(k), Pow2(w.Lsw() - k);
    assert Pow2(w.Lsw()) == e * p by { Pow2Add(w.Lsw() - k, k); }
    MultipleBelow(s.lsw, s.msw, Val(w, z), e, p);
    ShrIsDiv(s.lsw, k);
    OrDisjoint(d, Shr(s.lsw, k), k);
    Pow2Monotone(k, w.Lsw());
    OrBound(s.lsw, d, w.Lsw());
  }

  lemma MultipleBelow(lo: nat, hi: int, v: int, e: int, p: int)
    requires p > 0 && lo + hi * (e * p) == v * p
    ensures lo == (lo / p) * p
  {
    assert hi * (e * p) == (hi * e) * p;
    Distribute(v, hi * e, p);
    ModShift(0, v - hi * e, p);
    DivMod(lo, p);
  }

  /** `*sp`: the signed type holds the value when its sign bit is clear. */
  lemma SignedToo(w: Widths, z: Num)
    requires w.Valid() && Fits(w, z)
    ensures !Negative(w, z) <==> Val(w, z) < Pow2(w.numBits - 1)
  {
    NegativeMeans(w, z);
  }

  /** Octal constants, k == 3, and hexadecimal ones, k == 4. */
  method ShiftedConst(w: Widths, unsignedBits: nat, s: string, base: nat, k: nat) returns (result: Constant)
    requires w.Valid() && w.numBits < Pow2(unsignedBits)
    requires 0 < k <= w.Msw() && base == Pow2(k)
    ensures Reads(w, s, base, result)
  {
    var z, c := Zero, 0;
    ghost var n := DigitRun(s, base);
    assert s[..0] == [];
    while c < |s| && IsDigit(s[c], base)
      invariant c <= n && Fits(w, z)
      invariant Val(w, z) == Number(s[..c], base)
    {
      var d := DigitValue(s[c]);
      RunReaches(s, base, c);
      NumberStep(s, base, c);
      NumberGrows(s, base, c + 1, n);
      ShiftGuard(w, z, k, d);
      if z.msw > (Pow2(w.Msw()) - 1) / base {
        return TooLarge;
      }
      AppendDigit(w, unsignedBits, z, k, d);
      z := Lsh(w, unsignedBits, z, k);
      z := Num(z.msw, Or(z.lsw, d));
      c := c + 1;
    }
    ValBound(w, z);
    SignedToo(w, z);
    result := Constant(z, !Negative(w, z), c);
  }

  method OctConst(w: Widths, unsignedBits: nat, s: string) returns (result: Constant)
    requires w.Valid() && w.numBits < Pow2(unsignedBits) && w.Msw() >= 3
    ensures Reads(w, s, 8, result)
  {
    Pow2Values();
    result := ShiftedConst(w, unsignedBits, s, 8, 3);
  }

  method HexConst(w: Widths, unsignedBits: nat, s: string) returns (result: Constant)
    requires w.Valid() && w.numBits < Pow2(unsignedBits) && w.Msw() >= 4
    ensures Reads(w, s, 16, result)
  {
    Pow2Values();
    result := ShiftedConst(w, unsignedBits, s, 16, 4);
  }

  // ----- Decimal -----

  /** ARITH_ALPHA_A. */
  function Alpha(w: Widths): int
    requires w.Valid()
  {
    (Pow2(w.Msw()) - 1 - 10 * (Pow2(w.Msw() - 1) / 5)) + 1
  }

  /** The largest low word for which ten times the number fits when the high word is the largest possible. */
  function Threshold(alpha: int, trap: int): int {
    (trap / 5) * alpha + ((trap % 5) * alpha) / 5
  }

  /** The test the decimal parser makes before it multiplies by ten. */
  predicate TimesTenOverflows(w: Widths, z: Num)
    requires w.Valid()
  {
    var top, trap := (Pow2(w.Msw()) - 1) / 10, Pow2(w.Lsw() - 1);
    || z.msw > top
    || (z.msw == top && PastThreshold(Alpha(w), trap, z.lsw))
  }

  predicate PastThreshold(alpha: int, trap: int, lsw: nat) {
    if alpha == 5 then lsw >= trap else lsw > Threshold(alpha, trap)
  }

  /** The low word is at least alpha fifths of trap. */
  predicate AtLeastFifth(lo: int, alpha: int, trap: int) {
    5 * lo >= alpha * trap
  }

  lemma NotMultipleOfFive(k: nat)
    ensures Pow2(k) % 5 != 0
  {
    if k > 0 {
      NotMultipleOfFive(k - 1);
    }
  }

  lemma AlphaIs(w: Widths)
    requires w.Valid()
    ensures Alpha(w) == 2 * (Pow2(w.Msw() - 1) % 5) && 2 <= Alpha(w) <= 8
    ensures (Pow2(w.Msw()) - 1) / 10 == Pow2(w.Msw() - 1) / 5
    ensures Pow2(w.Msw()) == 10 * (Pow2(w.Msw() - 1) / 5) + Alpha(w)
  {
    NotMultipleOfFive(w.Msw() - 1);
  }

  /** floor(alpha * trap / 5), and alpha * trap is no multiple of five. */
  lemma ThresholdIs(alpha: int, trap: int)
    requires 2 <= alpha <= 8 && alpha % 2 == 0 && trap >= 0 && trap % 5 != 0
    ensures 5 * Threshold(alpha, trap) < alpha * trap < 5 * Threshold(alpha, trap) + 5
  {
    var a, b := trap / 5, trap % 5;
    assert alpha * trap == 5 * (a * alpha) + b * alpha;
    assert b == 1 || b == 2 || b == 3 || b == 4;
    assert alpha == 2 || alpha == 4 || alpha == 6 || alpha == 8;
  }

  /**
   The low-word threshold is exact: the test fires just when ten times the number does not
   fit. The case ARITH_ALPHA == 5 never arises, since that constant is always even.
   */
  lemma TimesTenGuard(w: Widths, z: Num)
    requires w.Valid() && Fits(w, z)
    ensures TimesTenOverflows(w, z) <==> 10 * Val(w, z) >= Modulus(w)
  {
    var trap, q := Pow2(w.Lsw() - 1), Pow2(w.Msw() - 1) / 5;
    TestMeans(w, z);
    AlphaIs(w);
    WidthFacts(w);
    CompareTimesTen(z.lsw, z.msw, q, Alpha(w), trap);
  }

  lemma TestUnfolds(w: Widths, z: Num)
    requires w.Valid()
    ensures var q := Pow2(w.Msw() - 1) / 5;
      TimesTenOverflows(w, z) <==> z.msw > q || (z.msw == q && PastThreshold(Alpha(w), Pow2(w.Lsw() - 1), z.lsw))
  {
    AlphaIs(w);
  }

  lemma TestMeans(w: Widths, z: Num)
    requires w.Valid()
    ensures var q := Pow2(w.Msw() - 1) / 5;
      TimesTenOverflows(w, z) <==> z.msw > q || (z.msw == q && AtLeastFifth(z.lsw, Alpha(w), Pow2(w.Lsw() - 1)))
  {
    TestUnfolds(w, z);
    AlphaIs(w);
    NotMultipleOfFive(w.Lsw() - 1);
    AtThreshold(z.lsw, Alpha(w), Pow2(w.Lsw() - 1));
  }

  lemma AtThreshold(lo: nat, alpha: int, trap: int)
    requires 2 <= alpha <= 8 && alpha % 2 == 0 && trap >= 0 && trap % 5 != 0
    ensures PastThreshold(alpha, trap, lo) <==> AtLeastFifth(lo, alpha, trap)
  {
    ThresholdIs(alpha, trap);
  }

  lemma CompareTimesTen(lo: int, hi: int, q: int, alpha: int, trap: int)
    requires 0 <= lo < 2 * trap && 0 <= alpha < 10
    ensures 10 * (lo + hi * (2 * trap)) >= (10 * q + alpha) * (2 * trap)
      <==> hi > q || (hi == q && AtLeastFifth(lo, alpha, trap))
  {
    var l := 2 * trap;
    Distribute(10 * q, alpha, l);
    TenfoldProduct(q, l);
    TwiceProduct(alpha, trap);
    MulLe(0, alpha, trap);
    MulLe(alpha, 9, trap);
    if hi > q {
      MulLe(q + 1, hi, l);
      Distribute(q, 1, l);
    } else if hi < q {
      MulLe(hi + 1, q, l);
      Distribute(hi, 1, l);
    }
    CompareProducts(lo, hi, q, hi * l, q * l, alpha * trap, trap);
  }

  lemma TenfoldProduct(q: int, l: int)
    ensures (10 * q) * l == 10 * (q * l)
  {
  }

  lemma TwiceProduct(alpha: int, trap: int)
    ensures alpha * (2 * trap) == 2 * (alpha * trap)
  {
  }

  lemma CompareProducts(lo: int, hi: int, q: int, hl: int, ql: int, at: int, trap: int)
    requires 0 <= lo < 2 * trap && 0 <= at <= 9 * trap
    requires (hi > q ==> hl >= ql + 2 * trap) && (hi < q ==> ql >= hl + 2 * trap) && (hi == q ==> hl == ql)
    ensures 10 * (lo + hl) >= 10 * ql + 2 * at <==> hi > q || (hi == q && 5 * lo >= at)
  {
  }

  /** Multiplying by ten as 8z + 2z. */
  method TimesTen(w: Widths, u: nat, z: Num) returns (r: Num)
    requires w.Valid() && Fits(w, z) && 3 < w.numBits < Pow2(u)
    requires 10 * Val(w, z) < Modulus(w)
    ensures Fits(w, r) && Val(w, r) == 10 * Val(w, z)
  {
    ShiftFits(w, u, z, 3, 8);
    ShiftFits(w, u, z, 1, 2);
    var eight, two := Lsh(w, u, z, 3), Lsh(w, u, z, 1);
    PlusExact(w, eight, two);
    r := Plus(w, eight, two);
  }

  lemma ShiftFits(w: Widths, u: nat, z: Num, k: nat, p: nat)
    requires w.Valid() && Fits(w, z) && k < w.numBits < Pow2(u)
    requires p == Pow2(k) && 0 <= Val(w, z) * p < Modulus(w)
    ensures LshDefined(w, u, k) && Val(w, Lsh(w, u, z, k)) == Val(w, z) * p
  {
    LshExact(w, u, z, k);
  }

  /** Adding a digit with carry; the number no longer fits just when the carry leaves the high word. */
  method AddDigit(w: Widths, z: Num, d: nat) returns (fits: bool, r: Num)
    requires w.Valid() && Fits(w, z) && d < Pow2(w.Lsw())
    ensures fits <==> Val(w, z) + d < Modulus(w)
    ensures fits ==> Fits(w, r) && Val(w, r) == Val(w, z) + d
  {
    fits, r := true, z;
    var t := TLsw(w, Native(w, z.lsw + d));
    WidthFacts(w);
    ghost var l, m := Pow2(w.Lsw()), Pow2(w.Msw());
    ModMod(z.lsw + d, w.subtypeBits, w.Lsw());
    ModMod(z.msw + 1, w.subtypeBits, w.Msw());
    WrapOnce(z.lsw, d, l);
    WrapOnce(z.msw, 1, m);
    TwoDigitsOrder(t, z.msw + 1, 0, m, l);
    TwoDigitsOrder(t, z.msw, 0, m, l);
    Distribute(z.msw, 1, l);
    if t < r.lsw {
      if TMsw(w, Native(w, r.msw + 1)) == 0 {
        return false, r;
      }
      r := Num(r.msw + 1, r.lsw);
    }
    r := Num(r.msw, t);
  }

  /** Decimal constants, for every width whose low word holds a digit. */
  method DecConst(w: Widths, unsignedBits: nat, s: string) returns (result: Constant)
    requires w.Valid() && w.numBits < Pow2(unsignedBits) && w.Lsw() >= 4
    ensures Reads(w, s, 10, result)
  {
    var z, c := Zero, 0;
    ghost var n := DigitRun(s, 10);
    assert s[..0] == [];
    Pow2Values();
    Pow2Monotone(4, w.Lsw());
    while c < |s| && IsDigit(s[c], 10)
      invariant c <= n && Fits(w, z)
      invariant Val(w, z) == Number(s[..c], 10)
    {
      var d := DigitValue(s[c]);
      RunReaches(s, 10, c);
      NumberStep(s, 10, c);
      NumberGrows(s, 10, c + 1, n);
      TimesTenGuard(w, z);
      if TimesTenOverflows(w, z) {
        return TooLarge;
      }
      z := TimesTen(w, unsignedBits, z);
      var fits;
      fits, z := AddDigit(w, z, d);
      if !fits {
        return TooLarge;
      }
      c := c + 1;
    }
    ValBound(w, z);
    SignedToo(w, z);
    result := Constant(z, !Negative(w, z), c);
  }

  // ----- What constants mean -----

  /** A constant written in any base is read as the number it is, up to its last digit, or is too large. */
  lemma {:induction false} ConstMeans(w: Widths, digits: string, v: nat, rest: string, result: Constant)
    requires w.Valid() && IsAlphabet(digits) && (rest == [] || !IsDigit(rest[0], |digits|))
    requires Reads(w, Written(digits, v) + rest, |digits|, result)
    ensures if v >= Modulus(w) then result.TooLarge?
      else
        result.Constant? && Fits(w, result.value) && Val(w, result.value) == v && result.end == |Written(digits, v)|
        && (result.signedToo <==> v < Pow2(w.numBits - 1))
  {
    AlphabetCounts(digits);
    WrittenReads(digits, v);
    RunOf(Written(digits, v), rest, |digits|);
  }
}
