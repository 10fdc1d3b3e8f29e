/**
 Multiplication of the simulated type: four half-word products with counted carries.
 With an odd low word the C code treats the low word's top bit of the second factor
 separately, and does so wrongly; the main lemma says exactly for which operands the
 product is the product modulo 2^N.
 */
module SimulMultiply {
  import opened Bits
  import opened SimulWords

  /** `z.lsw = TLSW(z.lsw + (t << k)); if (t > z.lsw) c ++;` */
  function AddLow(w: Widths, acc: nat, t: nat, k: nat): (r: (nat, nat))
    requires w.Valid()
    ensures r.0 < Pow2(w.Lsw()) && r.1 <= 1
  {
    var sum := TLsw(w, Native(w, acc + Shl(w.subtypeBits, t, k)));
    (sum, if acc > sum then 1 else 0)
  }

  /** The four half-word products. */
  datatype Products = Products(t00: nat, t01: nat, t10: nat, t11: nat)

  function HalfProduct(w: Widths, u: nat, v: nat): (r: nat)
    ensures r < Pow2(w.subtypeBits)
  {
    Native(w, u * v)
  }

  function HalfProducts(w: Widths, a: nat, b: nat): Products {
    var half := w.Lsw() / 2;
    var ones := Pow2(half) - 1;
    Products(HalfProduct(w, And(a, ones), And(b, ones)), HalfProduct(w, And(a, ones), Shr(b, half)),
             HalfProduct(w, Shr(a, half), And(b, ones)), HalfProduct(w, Shr(a, half), Shr(b, half)))
  }

  /** The low word after the two cross products, and the carries so far. */
  function AccumulateCross(w: Widths, t: Products): (r: (nat, nat))
    requires w.Valid()
    ensures r.0 < Pow2(w.Lsw())
  {
    var (s1, c1) := AddLow(w, t.t00, t.t01, w.Lsw() / 2);
    var (s2, c2) := AddLow(w, s1, t.t10, w.Lsw() / 2);
    (s2, c1 + c2)
  }

  /** The odd branch's two further additions. */
  function AccumulateTop(w: Widths, acc: nat, t11: nat, b: nat, again: bool): (r: (nat, nat))
    requires w.Valid() && acc < Pow2(w.Lsw())
    ensures r.0 < Pow2(w.Lsw())
  {
    var (s3, c3) := if w.Lsw() % 2 == 1 then AddLow(w, acc, t11, 2 * (w.Lsw() / 2)) else (acc, 0);
    var (s4, c4) := if again then AddLow(w, s3, b, 0) else (s3, 0);
    (s4, c3 + c4)
  }

  /** The low word of the product and the number of carries out of it. */
  function Accumulate(w: Widths, t: Products, b: nat, again: bool): (r: (nat, nat))
    requires w.Valid()
    ensures r.0 < Pow2(w.Lsw())
  {
    var (s2, c2) := AccumulateCross(w, t);
    var (s4, c4) := AccumulateTop(w, s2, t.t11, b, again);
    (s4, c2 + c4)
  }

  /** What the half-word products contribute to the high word. */
  function HighPart(w: Widths, t: Products): nat {
    var half := w.Lsw() / 2;
    Shr(t.t01, w.Lsw() - half) + Shr(t.t10, w.Lsw() - half) + Shr(t.t11, w.Lsw() - 2 * half)
  }

  function CrossTerms(x: Num, y: Num): nat {
    x.lsw * y.msw + x.msw * y.lsw
  }

  /** The second factor's low word, and whether its top bit was set and has been removed. */
  function Stripped(w: Widths, b: nat): (r: (nat, bool))
    requires w.Valid()
  {
    if w.Lsw() % 2 == 1 then
      Pow2Strict(w.Lsw() - 1, w.subtypeBits);
      (And(b, Not(w.subtypeBits, Pow2(w.Lsw() - 1))), And(b, Pow2(w.Lsw() - 1)) != 0)
    else (b, false)
  }

  function Star(w: Widths, x: Num, y: Num): (z: Num)
    requires w.Valid()
    ensures Fits(w, z)
  {
    var (b, removed) := Stripped(w, y.lsw);
    var t := HalfProducts(w, x.lsw, b);
    var (lsw, c) := Accumulate(w, t, b, removed && And(x.lsw, 1) != 0);
    // Unsigned native arithmetic wraps, so one reduction stands for one at every step.
    Num(TMsw(w, Native(w, CrossTerms(x, y) + c + HighPart(w, t))), lsw)
  }

  // ----- One accumulation -----

  lemma AddLowExact(w: Widths, acc: nat, t: nat, k: nat)
    requires w.Valid() && acc < Pow2(w.Lsw()) && k <= w.Lsw()
    ensures var (sum, carry) := AddLow(w, acc, t, k);
      sum + (carry + Shr(t, w.Lsw() - k)) * Pow2(w.Lsw()) == acc + t * Pow2(k)
  {
    var l, tp := Pow2(w.Lsw()), t * Pow2(k);
    var (sum, carry) := AddLow(w, acc, t, k);
    ShlIsMul(w.subtypeBits, t, k);
    AddLowSum(w, acc, tp);
    assert l == Pow2(w.Lsw() - k) * Pow2(k) by { Pow2Add(w.Lsw() - k, k); }
    ShrIsDiv(t, w.Lsw() - k);
    ShiftedQuotient(t, Pow2(k), Pow2(w.Lsw() - k));
    Distribute(carry, Shr(t, w.Lsw() - k), l);
  }

  lemma AddLowSum(w: Widths, acc: nat, tp: nat)
    requires w.Valid() && acc < Pow2(w.Lsw())
    ensures var l := Pow2(w.Lsw());
      var sum := TLsw(w, Native(w, acc + tp % Pow2(w.subtypeBits)));
      sum + (if acc > sum then 1 else 0) * l == acc + tp % l
  {
    var l, s := Pow2(w.Lsw()), tp % Pow2(w.subtypeBits);
    ModMod(acc + s, w.subtypeBits, w.Lsw());
    ModMod(tp, w.subtypeBits, w.Lsw());
    ModAddLeft(s, acc, l);
    ModAddLeft(tp, acc, l);
    WrapOnce(acc, tp % l, l);
  }

  lemma ShiftedQuotient(t: nat, p: nat, q: nat)
    requires p > 0 && q > 0
    ensures q * p > 0 && t * p == (t * p) % (q * p) + (t / q) * (q * p)
  {
    var d, r := t / q, t % q;
    assert t == d * q + r;
    Distribute(d * q, r, p);
    MulLe(r + 1, q, p);
    MulLe(0, r, p);
    assert (d * q) * p == d * (q * p);
    MulLe(1, q, p);
    DivModUnique(t * p, q * p, d, r * p);
  }

  // ----- The low words -----

  /** A number below 2^n cut at k. */
  lemma Halves(a: nat, n: nat, k: nat)
    requires a < Pow2(n) && k <= n
    ensures And(a, Pow2(k) - 1) < Pow2(k) && Shr(a, k) < Pow2(n - k)
    ensures a == And(a, Pow2(k) - 1) + Shr(a, k) * Pow2(k)
  {
    AndOnes(a, k);
    DivMod(a, Pow2(k));
    ShrIsDiv(a, k);
    var p, q := Pow2(k), Pow2(n - k);
    assert Pow2(n) == q * p by { Pow2Add(n - k, k); }
    DivBelow(a, q, p);
  }

  lemma ProductBound(x: nat, y: nat, m: nat, n: nat)
    requires x < Pow2(m) && y < Pow2(n)
    ensures x * y < Pow2(m + n)
  {
    Pow2Add(m, n);
    MulLess(x, y, Pow2(m), Pow2(n));
  }

  lemma MulLess(x: nat, y: nat, a: int, b: int)
    requires x < a && y < b
    ensures x * y < a * b
  {
    MulLe(x, a, y);
    MulLe(y + 1, b, a);
  }

  /** A half-word product that fits the native type is not truncated. */
  lemma ProductFits(w: Widths, x: nat, y: nat, m: nat, n: nat)
    requires w.Valid() && x < Pow2(m) && y < Pow2(n) && m + n <= w.Lsw()
    ensures Native(w, x * y) == x * y < Pow2(w.Lsw())
  {
    ProductBound(x, y, m, n);
    Pow2Monotone(m + n, w.Lsw());
    Pow2Monotone(w.Lsw(), w.subtypeBits);
    ModSmall(x * y, Pow2(w.subtypeBits));
  }

  lemma SchoolProduct(a0: int, a1: int, b0: int, b1: int, h: int)
    ensures (a0 + a1 * h) * (b0 + b1 * h) == a0 * b0 + (a0 * b1) * h + (a1 * b0) * h + (a1 * b1) * (h * h)
  {
  }

  /** The low word's top bit, which only the odd branch treats apart. */
  ghost predicate TopSet(w: Widths, y: Num)
    requires w.Valid()
  {
    w.Lsw() % 2 == 1 && y.lsw >= Pow2(w.Lsw() - 1)
  }

  /** The second factor's low word without that bit. */
  ghost function Rest(w: Widths, y: Num): int
    requires w.Valid()
  {
    if TopSet(w, y) then y.lsw - Pow2(w.Lsw() - 1) else y.lsw
  }

  /** What the odd branch adds for that bit. */
  ghost function Extra(w: Widths, x: Num, y: Num): int
    requires w.Valid()
  {
    if TopSet(w, y) && x.lsw % 2 == 1 then Rest(w, y) else 0
  }

  lemma StripTop(w: Widths, y: Num)
    requires w.Valid() && Fits(w, y)
    ensures Stripped(w, y.lsw) == (Rest(w, y), TopSet(w, y))
    ensures Rest(w, y) < Pow2(2 * (w.Lsw() / 2))
  {
    if w.Lsw() % 2 == 1 {
      var n := w.Lsw() - 1;
      Pow2Strict(n, w.subtypeBits);
      AndBit(y.lsw, n);
      TopBit(y.lsw, n + 1);
      ClearTop(w.subtypeBits, y.lsw, Rest(w, y), n);
    }
  }

  /** Masking away bit n of a number of n + 1 bits. */
  lemma ClearTop(s: nat, y: nat, b: nat, n: nat)
    requires n < s && Pow2(n) < Pow2(s) && b < Pow2(n) && (y == b || y == b + Pow2(n))
    ensures And(y, Not(s, Pow2(n))) == b
  {
    var r := And(y, Not(s, Pow2(n)));
    forall i: nat
      ensures Bit(r, i) == Bit(b, i)
    {
      BitAnd(y, Not(s, Pow2(n)), i);
      BitNot(s, Pow2(n), i);
      BitMul(1, n, i);
      BitConcat(b, if y == b then 0 else 1, n, i);
      if i >= n {
        BitBelow(b, n, i);
        BitZero(i - n);
      }
      if i > n {
        BitBelow(y, n + 1, i);
        BitZero(i - n - 1);
      }
    }
    BitExtensional(r, b);
  }

  lemma OddMeans(a: nat)
    ensures (And(a, 1) != 0) == (a % 2 == 1)
  {
    AndBit(a, 0);
  }

  lemma HalfProductsExact(w: Widths, a: nat, b: nat)
    requires w.Valid() && a < Pow2(w.Lsw()) && b < Pow2(2 * (w.Lsw() / 2))
    ensures var t, h := HalfProducts(w, a, b), Pow2(w.Lsw() / 2);
      t.t00 < Pow2(w.Lsw()) && t.t00 + t.t01 * h + t.t10 * h + t.t11 * (h * h) == a * b
  {
    var n, half := w.Lsw(), w.Lsw() / 2;
    Halves(a, n, half);
    Halves(b, 2 * half, half);
    var ones := Pow2(half) - 1;
    ProductFits(w, And(a, ones), And(b, ones), half, half);
    ProductFits(w, And(a, ones), Shr(b, half), half, half);
    ProductFits(w, Shr(a, half), And(b, ones), n - half, half);
    ProductFits(w, Shr(a, half), Shr(b, half), n - half, half);
    SchoolProduct(And(a, ones), Shr(a, half), And(b, ones), Shr(b, half), Pow2(half));
  }

  lemma CrossExact(w: Widths, t: Products)
    requires w.Valid() && t.t00 < Pow2(w.Lsw())
    ensures var n, half := w.Lsw(), w.Lsw() / 2;
      var (s, c) := AccumulateCross(w, t);
      s + (c + Shr(t.t01, n - half) + Shr(t.t10, n - half)) * Pow2(n)
        == t.t00 + t.t01 * Pow2(half) + t.t10 * Pow2(half)
  {
    var n, half := w.Lsw(), w.Lsw() / 2;
    var (s1, c1) := AddLow(w, t.t00, t.t01, half);
    AddLowExact(w, t.t00, t.t01, half);
    AddLowExact(w, s1, t.t10, half);
    Distribute(c1 + Shr(t.t01, n - half), AddLow(w, s1, t.t10, half).1 + Shr(t.t10, n - half), Pow2(n));
  }

  lemma TopExact(w: Widths, acc: nat, t11: nat, b: nat, again: bool)
    requires w.Valid() && acc < Pow2(w.Lsw()) && b < Pow2(w.Lsw())
    ensures var n, half := w.Lsw(), w.Lsw() / 2;
      var (s, c) := AccumulateTop(w, acc, t11, b, again);
      s + (c + Shr(t11, n - 2 * half)) * Pow2(n) == acc + t11 * Pow2(2 * half) + (if again then b else 0)
  {
    var n, half := w.Lsw(), w.Lsw() / 2;
    var (s3, c3) := if n % 2 == 1 then AddLow(w, acc, t11, 2 * half) else (acc, 0);
    var shifted := Shr(t11, n - 2 * half);
    assert s3 + (c3 + shifted) * Pow2(n) == acc + t11 * Pow2(2 * half) by {
      if n % 2 == 1 {
        AddLowExact(w, acc, t11, 2 * half);
      } else {
        assert shifted == t11;
      }
    }
    if again {
      LastAddition(w, s3, b);
      Distribute(c3 + shifted, AddLow(w, s3, b, 0).1, Pow2(n));
    }
  }

  lemma LastAddition(w: Widths, acc: nat, b: nat)
    requires w.Valid() && acc < Pow2(w.Lsw()) && b < Pow2(w.Lsw())
    ensures var (sum, carry) := AddLow(w, acc, b, 0); sum + carry * Pow2(w.Lsw()) == acc + b
  {
    AddLowExact(w, acc, b, 0);
    ShrIsDiv(b, w.Lsw());
    ModSmall(b, Pow2(w.Lsw()));
  }

  lemma AccumulateExact(w: Widths, t: Products, b: nat, again: bool)
    requires w.Valid() && t.t00 < Pow2(w.Lsw()) && b < Pow2(w.Lsw())
    ensures var (lsw, c) := Accumulate(w, t, b, again);
      var h := Pow2(w.Lsw() / 2);
      lsw + (c + HighPart(w, t)) * Pow2(w.Lsw())
        == t.t00 + t.t01 * h + t.t10 * h + t.t11 * (h * h) + (if again then b else 0)
  {
    var n, half := w.Lsw(), w.Lsw() / 2;
    var (s2, c2) := AccumulateCross(w, t);
    CrossExact(w, t);
    TopExact(w, s2, t.t11, b, again);
    assert Pow2(half) * Pow2(half) == Pow2(2 * half) by { Pow2Add(half, half); }
    Distribute(c2 + Shr(t.t01, n - half) + Shr(t.t10, n - half),
               AccumulateTop(w, s2, t.t11, b, again).1 + Shr(t.t11, n - 2 * half), Pow2(n));
  }

  /** The two words hold the product of the low words, plus the stray addition, plus the cross terms. */
  lemma StarUnreduced(w: Widths, x: Num, y: Num)
    requires w.Valid() && Fits(w, x) && Fits(w, y)
    ensures Val(w, Star(w, x, y)) ==
      Unreduced(w, x, y) % Modulus(w)
  {
    var b, l := Rest(w, y), Pow2(w.Lsw());
    StripTop(w, y);
    OddMeans(x.lsw);
    HalfProductsExact(w, x.lsw, b);
    Pow2Monotone(2 * (w.Lsw() / 2), w.Lsw());
    var t, again := HalfProducts(w, x.lsw, b), TopSet(w, y) && x.lsw % 2 == 1;
    AccumulateExact(w, t, b, again);
    var (lsw, c) := Accumulate(w, t, b, again);
    var raw := CrossTerms(x, y) + c + HighPart(w, t);
    WidthFacts(w);
    ModMod(raw, w.subtypeBits, w.Msw());
    ValMod(w, lsw, raw);
    Distribute(CrossTerms(x, y), c + HighPart(w, t), l);
  }

  // ----- When the product is right -----

  /**
   The simulated product is the product modulo 2^N exactly when the low word has an even
   width, or the second factor's low word has a clear top bit, or the first factor's low
   word is zero. So multiplication is exact for all operands just for even low words, and
   for odd ones it is not even commutative.
   */
  lemma StarExactIff(w: Widths, x: Num, y: Num)
    requires w.Valid() && Fits(w, x) && Fits(w, y)
    ensures Val(w, Star(w, x, y)) == (Val(w, x) * Val(w, y)) % Modulus(w)
      <==> w.Lsw() % 2 == 0 || y.lsw < Pow2(w.Lsw() - 1) || x.lsw == 0
  {
    StarUnreduced(w, x, y);
    ProductUnreduced(w, x, y);
    StrayTerm(w, x, y);
    SameRemainder(Unreduced(w, x, y), Stray(w, x, y), Modulus(w));
  }

  /** What the words hold before reduction modulo 2^N. */
  ghost function Unreduced(w: Widths, x: Num, y: Num): int
    requires w.Valid()
  {
    x.lsw * Rest(w, y) + Extra(w, x, y) + CrossTerms(x, y) * Pow2(w.Lsw())
  }

  /** What is missing from it. */
  ghost function Stray(w: Widths, x: Num, y: Num): int
    requires w.Valid()
  {
    x.lsw * (y.lsw - Rest(w, y)) - Extra(w, x, y)
  }

  lemma ProductUnreduced(w: Widths, x: Num, y: Num)
    requires w.Valid() && Fits(w, x) && Fits(w, y)
    ensures (Val(w, x) * Val(w, y)) % Modulus(w) == (Unreduced(w, x, y) + Stray(w, x, y)) % Modulus(w)
  {
    WidthFacts(w);
    var l, m, e := Pow2(w.Lsw()), Pow2(w.Msw()), Pow2(w.Lsw() - w.Msw());
    assert l == e * m by { Pow2Add(w.Lsw() - w.Msw(), w.Msw()); }
    FullProduct(x.lsw, x.msw, y.lsw, y.msw, l, e, m);
    SplitFactor(x.lsw, y.lsw, Rest(w, y));
    ModShift(x.lsw * y.lsw + CrossTerms(x, y) * l, x.msw * y.msw * e, m * l);
  }

  lemma SplitFactor(a: int, b: int, r: int)
    ensures a * b == a * r + a * (b - r)
  {
  }

  lemma FullProduct(a: int, xm: int, b: int, ym: int, l: int, e: int, m: int)
    requires l == e * m
    ensures (a + xm * l) * (b + ym * l) == a * b + (a * ym + xm * b) * l + (xm * ym * e) * (m * l)
  {
    assert (xm * l) * (ym * l) == (xm * ym) * (l * l);
    assert l * l == e * (m * l);
    assert (xm * ym) * (e * (m * l)) == (xm * ym * e) * (m * l);
  }

  /** The error of the odd branch is never a multiple of 2^N unless it is zero. */
  lemma StrayTerm(w: Widths, x: Num, y: Num)
    requires w.Valid() && Fits(w, x) && Fits(w, y)
    ensures Stray(w, x, y) % Modulus(w) == 0
      <==> w.Lsw() % 2 == 0 || y.lsw < Pow2(w.Lsw() - 1) || x.lsw == 0
  {
    WidthFacts(w);
    Pow2Monotone(w.Lsw() - 1, w.Msw());
    StrayRemainder(x.lsw, y.lsw, Rest(w, y), Pow2(w.Lsw() - 1), Pow2(w.Msw()), Pow2(w.Lsw()), Modulus(w));
  }

  lemma StrayRemainder(a: nat, b: nat, rest: nat, top: nat, m: nat, l: nat, n: nat)
    requires l == 2 * top && n == m * l && 0 < top <= m && a < l
    requires b == rest || (b == rest + top && rest < top)
    ensures n > 0
    ensures (a * (b - rest) - (if b != rest && a % 2 == 1 then rest else 0)) % n == 0 <==> b == rest || a == 0
  {
    TwoDigits(0, 0, m, l);
    ModSmall(0, n);
    if b != rest && a != 0 {
      var k, lo := a / 2, if a % 2 == 1 then top - rest else 0;
      HalveTimes(a, top);
      NotMultiple(lo, k, m, l);
    }
  }

  lemma HalveTimes(a: nat, top: nat)
    ensures a * top == (a / 2) * (2 * top) + (if a % 2 == 1 then top else 0)
  {
    var k := a / 2;
    Distribute(2 * k, a % 2, top);
  }

  lemma NotMultiple(lo: int, hi: int, m: int, l: int)
    requires 0 <= lo < l && 0 <= hi < m && (lo != 0 || hi != 0)
    ensures m * l > 0 && (lo + hi * l) % (m * l) != 0
  {
    TwoDigits(lo, hi, m, l);
    TwoDigitsOrder(0, 0, lo, hi, l);
    ModSmall(lo + hi * l, m * l);
  }

  /** 2 times 4 with five bits, three of them in the low word, does not come out as 8 modulo 32. */
  lemma OddWidthCounterexample()
    ensures var w := Widths(5, 8);
      w.Valid() && Fits(w, Num(0, 2)) && Fits(w, Num(0, 4))
      && Val(w, Star(w, Num(0, 2), Num(0, 4))) != (Val(w, Num(0, 2)) * Val(w, Num(0, 4))) % Modulus(w)
  {
    Pow2Values();
    assert Pow2(5) == 2 * Pow2(4);
    StarExactIff(Widths(5, 8), Num(0, 2), Num(0, 4));
  }
}
