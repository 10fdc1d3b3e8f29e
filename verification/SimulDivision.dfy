/**
 Shift-and-subtract division of the simulated type, and the signed division built on it.
 */
module SimulDivision {
  import opened Bits
  import opened SimulWords

  /** The loop invariant: what is left of x is below twice the shifted divisor. */
  ghost predicate Partial(w: Widths, x: nat, y: nat, a: Num, q: Num, rest: Num, j: int)
    requires w.Valid()
  {
    && -1 <= j < w.numBits
    && Fits(w, a) && Fits(w, q) && Fits(w, rest)
    && x == Val(w, q) * y + Val(w, rest)
    && Val(w, rest) < y * Pow2(j + 1)
    && Val(w, q) % Pow2(j + 1) == 0
    && (j >= 0 ==> Val(w, a) == y * Pow2(j))
  }

  /** One round: subtract if possible, set quotient bit j, halve the divisor. */
  method Round(w: Widths, u: nat, ghost x: nat, ghost y: nat, a: Num, q: Num, rest: Num, j: nat)
    returns (a': Num, q': Num, rest': Num)
    requires w.Valid() && u > 0
    requires Partial(w, x, y, a, q, rest, j)
    ensures Partial(w, x, y, a', q', rest', j - 1)
  {
    ShiftByOne(w, u);
    a', q', rest' := Rsh(w, u, a, 1), q, rest;
    if Leq(a, rest) {
      rest' := Minus(w, rest, a);
      q' := WithBit(w, q, j);
    }
    RoundValues(w, u, a, q, rest, j);
    RoundArithmetic(x, y, Pow2(j), Val(w, a), Val(w, q), Val(w, rest));
    if j > 0 {
      Halve(y, Pow2(j - 1), Val(w, a));
    }
  }

  /** `q->msw |= 1 << (j - LSW_WIDTH)` or `q->lsw |= 1 << j`. */
  function WithBit(w: Widths, q: Num, j: nat): Num {
    if j >= w.Lsw() then Num(Or(q.msw, Pow2(j - w.Lsw())), q.lsw) else Num(q.msw, Or(q.lsw, Pow2(j)))
  }

  lemma ShiftByOne(w: Widths, u: nat)
    requires w.Valid() && u > 0
    ensures ShiftCount(w, u, 1) == 1 && RshDefined(w, u, 1)
  {
    Pow2Strict(0, u);
    RshDefinedExact(w, u, 1);
  }

  lemma RoundValues(w: Widths, u: nat, a: Num, q: Num, rest: Num, j: nat)
    requires w.Valid() && u > 0 && Fits(w, a) && Fits(w, q) && Fits(w, rest) && j < w.numBits
    requires Val(w, q) % Pow2(j + 1) == 0
    ensures Leq(a, rest) == (Val(w, a) <= Val(w, rest))
    ensures RshDefined(w, u, 1) && Val(w, Rsh(w, u, a, 1)) == Val(w, a) / 2
    ensures Fits(w, WithBit(w, q, j)) && Val(w, WithBit(w, q, j)) == Val(w, q) + Pow2(j)
    ensures Val(w, a) <= Val(w, rest) ==> Val(w, Minus(w, rest, a)) == Val(w, rest) - Val(w, a)
  {
    CompareRefines(w, a, rest);
    MinusRefines(w, rest, a);
    ShiftByOne(w, u);
    RshRefines(w, u, a, 1);
    SetBit(w, q, j);
  }

  lemma RoundArithmetic(x: int, y: int, p: int, a: int, q: int, rest: int)
    requires p > 0 && a == y * p && x == q * y + rest && rest < y * (2 * p) && q % (2 * p) == 0
    ensures x == (q + p) * y + (rest - a)
    ensures rest - a < y * p
    ensures q % p == 0 && (q + p) % p == 0
  {
    Evens(q, p);
    Distribute(q, p, y);
    ModShift(q, 1, p);
    assert y * (2 * p) == y * p + y * p;
  }

  lemma Halve(y: nat, p: nat, a: nat)
    requires a == y * (2 * p)
    ensures a / 2 == y * p
  {
    assert a == 2 * (y * p);
  }

  lemma Evens(q: int, p: int)
    requires p > 0 && q % (2 * p) == 0
    ensures q % p == 0
  {
    DivMod(q, 2 * p);
    assert q == (2 * (q / (2 * p))) * p;
    ModShift(0, 2 * (q / (2 * p)), p);
  }

  /** Or-ing bit j into a number whose low j+1 bits are clear adds 2^j. */
  lemma SetBit(w: Widths, q: Num, j: nat)
    requires w.Valid() && Fits(w, q) && j < w.numBits
    requires Val(w, q) % Pow2(j + 1) == 0
    ensures Fits(w, WithBit(w, q, j)) && Val(w, WithBit(w, q, j)) == Val(w, q) + Pow2(j)
  {
    WidthFacts(w);
    forall i: nat | i <= j
      ensures !Bit(Val(w, q), i)
    {
      BitMod(Val(w, q), j + 1, i);
      BitZero(i);
    }
    if j >= w.Lsw() {
      var k := j - w.Lsw();
      forall i: nat | i <= k
        ensures !Bit(q.msw, i)
      {
        BitVal(w, q, i + w.Lsw());
      }
      OrSetsBit(q.msw, k, w.Msw());
      Pow2Add(k, w.Lsw());
      Distribute(q.msw, Pow2(k), Pow2(w.Lsw()));
    } else {
      forall i: nat | i <= j
        ensures !Bit(q.lsw, i)
      {
        BitVal(w, q, i);
      }
      OrSetsBit(q.lsw, j, w.Lsw());
    }
  }

  lemma OrSetsBit(x: nat, k: nat, n: nat)
    requires k < n && x < Pow2(n)
    requires forall i: nat | i <= k :: !Bit(x, i)
    ensures Or(x, Pow2(k)) == x + Pow2(k) < Pow2(n)
  {
    LowBitsClear(x, k + 1);
    var h := Shr(x, k + 1);
    Pow2Strict(k, k + 1);
    OrDisjoint(Pow2(k), h, k + 1);
    Pow2Strict(k, n);
    OrBound(x, Pow2(k), n);
  }

  lemma LowBitsClear(x: nat, k: nat)
    requires forall i: nat | i < k :: !Bit(x, i)
    ensures x == Shr(x, k) * Pow2(k)
  {
    forall i: nat
      ensures Bit(x % Pow2(k), i) == Bit(0, i)
    {
      BitMod(x, k, i);
      BitZero(i);
    }
    BitExtensional(x % Pow2(k), 0);
    DivMod(x, Pow2(k));
    ShrIsDiv(x, k);
  }

  /** The position of the highest set bit of the divisor. */
  method HighestBit(w: Widths, y: Num) returns (i: int)
    requires w.Valid() && Fits(w, y) && Val(w, y) != 0
    ensures 0 <= i < w.numBits
    ensures Pow2(i) <= Val(w, y) < Pow2(i + 1)
  {
    i := w.numBits - 1;
    WidthFacts(w);
    ValBound(w, y);
    while i >= 0
      invariant -1 <= i < w.numBits
      invariant Val(w, y) < Pow2(i + 1)
    {
      BitVal(w, y, i);
      TopBit(Val(w, y), i + 1);
      if i >= w.Lsw() {
        AndBit(y.msw, i - w.Lsw());
      } else {
        AndBit(y.lsw, i);
      }
      if i >= w.Lsw() && And(y.msw, Pow2(i - w.Lsw())) != 0 {
        break;
      }
      if i < w.Lsw() && And(y.lsw, Pow2(i)) != 0 {
        break;
      }
      i := i - 1;
    }
  }

  /** Rounds from bit j down to bit `stop`. */
  method Rounds(w: Widths, u: nat, ghost x: nat, ghost y: nat, a: Num, q: Num, rest: Num, j: int, stop: nat)
    returns (a': Num, q': Num, rest': Num)
    requires w.Valid() && u > 0
    requires Partial(w, x, y, a, q, rest, j)
    ensures Partial(w, x, y, a', q', rest', if j >= stop then stop - 1 else j)
  {
    a', q', rest' := a, q, rest;
    var k := j;
    while k >= stop
      invariant k == j || stop - 1 <= k < j
      invariant Partial(w, x, y, a', q', rest', k)
    {
      a', q', rest' := Round(w, u, x, y, a', q', rest', k);
      k := k - 1;
    }
  }

  /** Unsigned division: for every width, every dividend and every divisor but zero. */
  method Udiv(w: Widths, unsignedBits: nat, x: Num, y: Num) returns (q: Num, r: Num)
    requires w.Valid() && Fits(w, x) && Fits(w, y) && Val(w, y) != 0
    requires w.numBits < Pow2(unsignedBits)
    ensures Fits(w, q) && Fits(w, r)
    ensures Val(w, x) == Val(w, q) * Val(w, y) + Val(w, r)
    ensures Val(w, r) < Val(w, y)
  {
    var i := HighestBit(w, y);
    var j := w.numBits - 1 - i;
    StartPartial(w, unsignedBits, x, y, i);
    var a := Lsh(w, unsignedBits, y, j);
    // First the quotient bits of the high word, then those of the low word.
    a, q, r := Rounds(w, unsignedBits, Val(w, x), Val(w, y), a, Zero, x, j, w.Lsw());
    a, q, r := Rounds(w, unsignedBits, Val(w, x), Val(w, y), a, q, r, if j >= w.Lsw() then w.Lsw() - 1 else j, 0);
  }

  lemma StartPartial(w: Widths, u: nat, x: Num, y: Num, i: nat)
    requires w.Valid() && Fits(w, x) && Fits(w, y) && i < w.numBits < Pow2(u)
    requires Pow2(i) <= Val(w, y) < Pow2(i + 1)
    ensures LshDefined(w, u, w.numBits - 1 - i)
    ensures Partial(w, Val(w, x), Val(w, y), Lsh(w, u, y, w.numBits - 1 - i), Zero, x, w.numBits - 1 - i)
  {
    var j, v := w.numBits - 1 - i, Val(w, y);
    ValBound(w, x);
    assert Modulus(w) == Pow2(i + 1) * Pow2(j) by { Pow2Add(i + 1, j); }
    ShiftedDivisor(v, Pow2(i), Pow2(j));
    LshExact(w, u, y, j);
    ModSmall(0, Pow2(j + 1));
  }

  lemma ShiftedDivisor(v: nat, p: nat, q: nat)
    requires p <= v < 2 * p && q > 0
    ensures 0 <= v * q < (2 * p) * q <= v * (2 * q)
  {
    MulLe(v + 1, 2 * p, q);
    Distribute(v, 1, q);
    MulLe(p, v, q);
    assert (2 * p) * q == 2 * (p * q) && v * (2 * q) == 2 * (v * q);
  }

  // ----- Signed division -----

  ghost function Abs(x: int): nat {
    if x < 0 then -x else x
  }

  /** Division as C defines it, rounding toward zero. */
  ghost function TruncDiv(x: int, y: int): int
    requires y != 0
  {
    if (x < 0) == (y < 0) then Abs(x) / Abs(y) else -(Abs(x) / Abs(y))
  }

  datatype DivResult = Quotient(z: Num) | DivideByZero | Overflow

  function Magnitude(w: Widths, x: Num): (z: Num)
    requires w.Valid() && Fits(w, x)
    ensures Fits(w, z)
  {
    if Negative(w, x) then Neg(w, x) else x
  }

  lemma MagnitudeRefines(w: Widths, x: Num)
    requires w.Valid() && Fits(w, x)
    ensures Val(w, Magnitude(w, x)) == Abs(SVal(w, x)) <= Pow2(w.numBits - 1)
  {
    NegativeMeans(w, x);
    NegRefines(w, x);
    ValBound(w, x);
  }

  /** Negating, or not, a number whose magnitude fits. */
  function Flip(w: Widths, z: Num, flip: bool): (r: Num)
    requires w.Valid() && Fits(w, z)
    ensures Fits(w, r)
  {
    if flip then Neg(w, z) else z
  }

  lemma FlipRefines(w: Widths, z: Num, flip: bool)
    requires w.Valid() && Fits(w, z) && Val(w, z) <= Pow2(w.numBits - 1)
    ensures flip ==> SVal(w, Flip(w, z, flip)) == 0 - Val(w, z)
    ensures !flip && Val(w, z) < Pow2(w.numBits - 1) ==> SVal(w, Flip(w, z, flip)) == Val(w, z)
    ensures !flip && Val(w, z) == Pow2(w.numBits - 1) ==> SVal(w, Flip(w, z, flip)) == 0 - Val(w, z)
  {
    if flip {
      NegRefines(w, z);
    }
    assert Modulus(w) == 2 * Pow2(w.numBits - 1);
  }

  /**
   What signed division of x by y gives on the two's complement range up to `top`. The
   smallest number over -1 wraps, and since the remainder carries the quotient's sign and
   not the dividend's, it completes the division just for positive divisors and exact
   quotients.
   */
  ghost predicate SignedDivision(x: int, y: int, q: int, r: int, top: nat)
    requires y != 0
  {
    var wraps := x == -1 * top && y == -1;
    && Abs(x) == Abs(q) * Abs(y) + Abs(r) && Abs(r) < Abs(y)
    && (q == TruncDiv(x, y) <==> !wraps)
    && (x == q * y + r <==> !wraps && (y > 0 || Abs(x) % Abs(y) == 0))
  }

  /** Signed division of any pair but a zero divisor. */
  method Sdiv(w: Widths, unsignedBits: nat, x: Num, y: Num) returns (q: Num, r: Num)
    requires w.Valid() && Fits(w, x) && Fits(w, y) && SVal(w, y) != 0
    requires w.numBits < Pow2(unsignedBits)
    ensures Fits(w, q) && Fits(w, r)
    ensures SignedDivision(SVal(w, x), SVal(w, y), SVal(w, q), SVal(w, r), Pow2(w.numBits - 1))
  {
    var a, b := Magnitude(w, x), Magnitude(w, y);
    var xn, yn := Negative(w, x), Negative(w, y);
    MagnitudeRefines(w, x);
    MagnitudeRefines(w, y);
    NegativeMeans(w, x);
    NegativeMeans(w, y);
    var c, d := Udiv(w, unsignedBits, a, b);
    q := Flip(w, c, xn != yn);
    r := Flip(w, d, xn != yn);
    ghost var top := Pow2(w.numBits - 1);
    MagnitudesDivide(SVal(w, x), SVal(w, y), Val(w, c), Val(w, d), top);
    FlipRefines(w, c, xn != yn);
    FlipRefines(w, d, xn != yn);
    TruncatedDivision(SVal(w, x), SVal(w, y), Val(w, c), Val(w, d), top, SVal(w, q), SVal(w, r));
  }

  /** 1 / -2 is 0 with the remainder -1, which does not complete the division. */
  lemma NegativeDivisorRemainder(q: int, r: int, top: nat)
    requires top >= 2 && SignedDivision(1, -2, q, r, top)
    ensures q == 0 && r == -1 && 1 != q * -2 + r
  {
    assert Abs(1) == 1 && Abs(-2) == 2 && TruncDiv(1, -2) == 0;
  }

  lemma MagnitudesDivide(x: int, y: int, c: nat, d: nat, top: nat)
    requires -1 * top <= x < top && -1 * top <= y < top && y != 0
    requires Abs(x) == c * Abs(y) + d && d < Abs(y)
    ensures c <= top && d < top
    ensures c == top && (x < 0) == (y < 0) <==> x == -1 * top && y == -1
    ensures Abs(x) / Abs(y) == c && Abs(x) % Abs(y) == d
  {
    MulLe(1, Abs(y), c);
    DivModUnique(Abs(x), Abs(y), c, d);
    if Abs(y) >= 2 {
      MulLe(2, Abs(y), c);
    }
  }

  /** From the quotient and remainder of the magnitudes to those of the signed numbers. */
  lemma TruncatedDivision(x: int, y: int, c: nat, d: nat, top: nat, q: int, r: int)
    requires -1 * top <= x < top && -1 * top <= y < top && y != 0
    requires Abs(x) == c * Abs(y) + d && d < Abs(y)
    requires q == if (x < 0) != (y < 0) || c == top then -1 * c else c
    requires r == if (x < 0) != (y < 0) then -1 * d else d
    ensures SignedDivision(x, y, q, r, top)
  {
    MagnitudesDivide(x, y, c, d, top);
    var p := c * y;
    assert c * Abs(y) == if y < 0 then -1 * p else p by { NegateFactor(c, y); }
    assert q * y == if q == c then p else -1 * p by { NegateFactor(y, c); }
    assert Abs(q) == c && Abs(r) == d;
  }

  lemma NegateFactor(a: int, b: int)
    ensures a * (-1 * b) == -1 * (a * b) && (-1 * b) * a == -1 * (a * b) && b * a == a * b
  {
  }

  /** `/` of the signed type. */
  method Slash(w: Widths, unsignedBits: nat, x: Num, y: Num) returns (result: DivResult)
    requires w.Valid() && Fits(w, x) && Fits(w, y)
    requires w.numBits < Pow2(unsignedBits)
    ensures result.DivideByZero? <==> SVal(w, y) == 0
    ensures result.Overflow? <==> SVal(w, x) == 0 - Pow2(w.numBits - 1) && SVal(w, y) == -1
    ensures result.Quotient? ==>
      Fits(w, result.z) && SVal(w, y) != 0 && SVal(w, result.z) == TruncDiv(SVal(w, x), SVal(w, y))
  {
    SpecialValues(w, x, y);
    if y == Zero {
      return DivideByZero;
    } else if x.msw == Pow2(w.Msw() - 1) && x.lsw == 0
              && y.msw == Pow2(w.Msw()) - 1 && y.lsw == Pow2(w.Lsw()) - 1 {
      return Overflow;
    }
    var q, r := Sdiv(w, unsignedBits, x, y);
    result := Quotient(q);
  }

  /** The patterns of zero, of the smallest number and of minus one. */
  lemma SpecialValues(w: Widths, x: Num, y: Num)
    requires w.Valid() && Fits(w, x) && Fits(w, y)
    ensures y == Zero <==> Val(w, y) == 0
    ensures y == Zero <==> SVal(w, y) == 0
    ensures x.msw == Pow2(w.Msw() - 1) && x.lsw == 0 <==> SVal(w, x) == 0 - Pow2(w.numBits - 1)
    ensures y.msw == Pow2(w.Msw()) - 1 && y.lsw == Pow2(w.Lsw()) - 1 <==> SVal(w, y) == -1
  {
    WidthFacts(w);
    var l, m := Pow2(w.Lsw()), Pow2(w.Msw());
    ValBound(w, x);
    ValBound(w, y);
    Pow2Add(w.Msw() - 1, w.Lsw());
    TwoDigitsOrder(y.lsw, y.msw, 0, 0, l);
    TwoDigitsOrder(0, 0, y.lsw, y.msw, l);
    TwoDigitsOrder(x.lsw, x.msw, 0, Pow2(w.Msw() - 1), l);
    TwoDigitsOrder(0, Pow2(w.Msw() - 1), x.lsw, x.msw, l);
    TwoDigitsOrder(y.lsw, y.msw, l - 1, m - 1, l);
    Distribute(m, 1, l);
  }
}
