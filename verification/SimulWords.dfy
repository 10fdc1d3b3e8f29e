/**
 The simulated integer type of the preprocessor: an N-bit number held in two native
 words, the low one of (N+1)/2 bits and the high one of N/2 bits. The width N and the
 width of the native type stay parameters throughout. Every operation works on the two
 words as the C code does; the lemmas say which integer comes out.
 */
module SimulWords {
  import opened Bits

  /** SIMUL_NUMBITS and SIMUL_SUBTYPE_BITS. */
  datatype Widths = Widths(numBits: nat, subtypeBits: nat) {
    function Msw(): nat { numBits / 2 }

    function Lsw(): nat { (numBits + 1) / 2 }

    // The simulated type is at most twice as wide as the native one.
    ghost predicate Valid() {
      numBits >= 2 && numBits <= 2 * subtypeBits
    }
  }

  datatype Num = Num(msw: nat, lsw: nat)

  const Zero := Num(0, 0)
  const One := Num(0, 1)

  ghost predicate Fits(w: Widths, x: Num) {
    x.msw < Pow2(w.Msw()) && x.lsw < Pow2(w.Lsw())
  }

  /** The unsigned number held in the two words. */
  ghost function Val(w: Widths, x: Num): nat {
    x.lsw + x.msw * Pow2(w.Lsw())
  }

  /** The same pattern read in two's complement. */
  ghost function SVal(w: Widths, x: Num): int
    requires w.Valid()
  {
    if Val(w, x) >= Pow2(w.numBits - 1) then Val(w, x) - Pow2(w.numBits) else Val(w, x)
  }

  ghost function Modulus(w: Widths): nat {
    Pow2(w.numBits)
  }

  /** Arithmetic of the native type wraps around at its width. */
  function Native(w: Widths, x: nat): (r: nat)
    ensures r < Pow2(w.subtypeBits)
  {
    x % Pow2(w.subtypeBits)
  }

  function TMsw(w: Widths, x: nat): (r: nat)
    ensures r == x % Pow2(w.Msw())
  {
    AndOnes(x, w.Msw());
    And(x, Pow2(w.Msw()) - 1)
  }

  function TLsw(w: Widths, x: nat): (r: nat)
    ensures r == x % Pow2(w.Lsw())
  {
    AndOnes(x, w.Lsw());
    And(x, Pow2(w.Lsw()) - 1)
  }

  /** The shift count is cast to `unsigned`, then reduced modulo the simulated width. */
  function ShiftCount(w: Widths, unsignedBits: nat, y: int): (k: nat)
    requires w.numBits > 0
    ensures k < w.numBits
    ensures 0 <= y < w.numBits && y < Pow2(unsignedBits) ==> k == y
  {
    assert 0 <= y < w.numBits && y < Pow2(unsignedBits) ==>
        (y % Pow2(unsignedBits)) % w.numBits == y by {
      if 0 <= y < w.numBits && y < Pow2(unsignedBits) {
        ModSmall(y, Pow2(unsignedBits));
        ModSmall(y, w.numBits);
      }
    }
    (y % Pow2(unsignedBits)) % w.numBits
  }

  // ----- Shifts that C defines -----

  /** C gives a shift by the width of its operand, or by more, no meaning. */
  predicate CShift(w: Widths, k: nat) {
    k < w.subtypeBits
  }

  /** The native shifts of a left shift all have a meaning. */
  predicate LshDefined(w: Widths, unsignedBits: nat, y: int)
    requires w.numBits > 0
  {
    y == 0 ||
    var k := ShiftCount(w, unsignedBits, y);
    if k >= w.Lsw() then CShift(w, k - w.Lsw()) else CShift(w, k) && CShift(w, w.Lsw() - k)
  }

  predicate RshDefined(w: Widths, unsignedBits: nat, y: int)
    requires w.numBits > 0
  {
    var k := ShiftCount(w, unsignedBits, y);
    if k >= w.Lsw() then CShift(w, k - w.Lsw()) else CShift(w, k) && CShift(w, w.Lsw() - k)
  }

  predicate SignedRshDefined(w: Widths, unsignedBits: nat, x: Num, y: int)
    requires w.numBits >= 2
  {
    var k := ShiftCount(w, unsignedBits, y);
    RshDefined(w, unsignedBits, y)
    && (Negative(w, x) && k > 0 ==> if k <= w.Msw() then CShift(w, k) else CShift(w, k - w.Msw()))
  }

  /** A left shift has no meaning exactly when the low word fills the native type and the count is a
      nonzero multiple of the simulated width. */
  lemma LshDefinedExact(w: Widths, unsignedBits: nat, y: int)
    requires w.Valid()
    ensures LshDefined(w, unsignedBits, y)
       <==> !(w.Lsw() == w.subtypeBits && y != 0 && ShiftCount(w, unsignedBits, y) == 0)
  {
  }

  /** A right shift has no meaning exactly when the low word fills the native type and the count is
      zero or another multiple of the simulated width. */
  lemma RshDefinedExact(w: Widths, unsignedBits: nat, y: int)
    requires w.Valid()
    ensures RshDefined(w, unsignedBits, y) <==> !(w.Lsw() == w.subtypeBits && ShiftCount(w, unsignedBits, y) == 0)
  {
  }

  /** For a negative number there is one more such count when both words fill the native type. */
  lemma SignedRshDefinedExact(w: Widths, unsignedBits: nat, x: Num, y: int)
    requires w.Valid()
    ensures SignedRshDefined(w, unsignedBits, x, y)
       <==> RshDefined(w, unsignedBits, y)
            && !(w.Msw() == w.subtypeBits && Negative(w, x) && ShiftCount(w, unsignedBits, y) == w.Msw())
  {
  }

  /** 64 bits on a native type of 32: left by 64, right by 0, and a negative number right by 32. */
  lemma UndefinedShifts()
    ensures var w := Widths(64, 32);
      && w.Valid() && Fits(w, Num(Pow2(31), 0))
      && !LshDefined(w, 32, 64) && !RshDefined(w, 32, 0)
      && RshDefined(w, 32, 32) && !SignedRshDefined(w, 32, Num(Pow2(31), 0), 32)
  {
    var w := Widths(64, 32);
    Pow2Monotone(7, 32);
    Pow2Values();
    Pow2Strict(31, 32);
    CountBelow(64, 32, 64, 0);
    CountBelow(0, 32, 64, 0);
    CountBelow(32, 32, 64, 32);
    LshDefinedExact(w, 32, 64);
    RshDefinedExact(w, 32, 0);
    RshDefinedExact(w, 32, 32);
    AndBit(Pow2(31), 31);
    TopBit(Pow2(31), 32);
    SignedRshDefinedExact(w, 32, Num(Pow2(31), 0), 32);
  }

  lemma CountBelow(y: nat, u: nat, n: nat, k: nat)
    requires n > 0 && y < Pow2(u) && y % n == k
    ensures ShiftCount(Widths(n, 32), u, y) == k
  {
    ModSmall(y, Pow2(u));
  }

  // ----- The operations, word by word -----

  function Complement(w: Widths, x: Num): (z: Num)
    requires w.Valid() && Fits(w, x)
    ensures Fits(w, z)
  {
    Pow2Monotone(w.Msw(), w.subtypeBits);
    Pow2Monotone(w.Lsw(), w.subtypeBits);
    Num(TMsw(w, Not(w.subtypeBits, x.msw)), TLsw(w, Not(w.subtypeBits, x.lsw)))
  }

  function Plus(w: Widths, x: Num, y: Num): (z: Num)
    requires w.Valid()
    ensures Fits(w, z)
  {
    var lsw := TLsw(w, Native(w, x.lsw + y.lsw));
    var msw := TMsw(w, Native(w, x.msw + y.msw));
    Num(if lsw < y.lsw then TMsw(w, Native(w, msw + 1)) else msw, lsw)
  }

  function Neg(w: Widths, x: Num): (z: Num)
    requires w.Valid() && Fits(w, x)
    ensures Fits(w, z)
  {
    Plus(w, Complement(w, x), One)
  }

  function Minus(w: Widths, x: Num, y: Num): (z: Num)
    requires w.Valid() && Fits(w, y)
    ensures Fits(w, z)
  {
    Plus(w, x, Neg(w, y))
  }

  function Lsh(w: Widths, unsignedBits: nat, x: Num, y: int): (z: Num)
    requires w.Valid() && Fits(w, x) && LshDefined(w, unsignedBits, y)
    ensures Fits(w, z)
  {
    if y == 0 then x
    else
      var k := ShiftCount(w, unsignedBits, y);
      if k >= w.Lsw() then
        Num(TMsw(w, Shl(w.subtypeBits, x.lsw, k - w.Lsw())), 0)
      else
        Num(TMsw(w, Or(Shl(w.subtypeBits, x.msw, k), Shr(x.lsw, w.Lsw() - k))),
            TLsw(w, Shl(w.subtypeBits, x.lsw, k)))
  }

  function Rsh(w: Widths, unsignedBits: nat, x: Num, y: int): (z: Num)
    requires w.Valid() && Fits(w, x) && RshDefined(w, unsignedBits, y)
    ensures Fits(w, z)
  {
    var k := ShiftCount(w, unsignedBits, y);
    RshFits(w, x.msw, k);
    if k >= w.Lsw() then
      Num(0, Shr(x.msw, k - w.Lsw()))
    else
      Num(Shr(x.msw, k), TLsw(w, Or(Shr(x.lsw, k), Shl(w.subtypeBits, x.msw, w.Lsw() - k))))
  }

  lemma RshFits(w: Widths, m: nat, k: nat)
    requires w.Valid() && m < Pow2(w.Msw())
    ensures Shr(m, k) < Pow2(w.Msw())
    ensures k >= w.Lsw() ==> Shr(m, k - w.Lsw()) < Pow2(w.Lsw())
  {
    ShrLe(m, k);
    if k >= w.Lsw() {
      ShrLe(m, k - w.Lsw());
    }
    Pow2Monotone(w.Msw(), w.Lsw());
  }

  /** The sign bit: `x.msw & SIMUL_TRAP`. */
  predicate Negative(w: Widths, x: Num)
    requires w.numBits >= 2
  {
    And(x.msw, Pow2(w.Msw() - 1)) != 0
  }

  /** `~(ones(n) >> k)` truncated to n bits. */
  function SignFill(w: Widths, n: nat, k: nat): (r: nat)
    requires n <= w.subtypeBits
    ensures r < Pow2(n)
  {
    ShrLe(Pow2(n) - 1, k);
    Pow2Monotone(n, w.subtypeBits);
    AndOnes(Not(w.subtypeBits, Shr(Pow2(n) - 1, k)), n);
    And(Not(w.subtypeBits, Shr(Pow2(n) - 1, k)), Pow2(n) - 1)
  }

  /** Right shift of the signed type: the sign bit is duplicated. */
  function SignedRsh(w: Widths, unsignedBits: nat, x: Num, y: int): (z: Num)
    requires w.Valid() && Fits(w, x) && SignedRshDefined(w, unsignedBits, x, y)
    ensures Fits(w, z)
  {
    var z := Rsh(w, unsignedBits, x, y);
    var k := ShiftCount(w, unsignedBits, y);
    if Negative(w, x) && k > 0 then
      if k <= w.Msw() then
        OrBound(z.msw, SignFill(w, w.Msw(), k), w.Msw());
        Num(Or(z.msw, SignFill(w, w.Msw(), k)), z.lsw)
      else
        OrBound(z.lsw, SignFill(w, w.Lsw(), k - w.Msw()), w.Lsw());
        Num(Pow2(w.Msw()) - 1, Or(z.lsw, SignFill(w, w.Lsw(), k - w.Msw())))
    else z
  }

  predicate Leq(x: Num, y: Num) {
    x.msw < y.msw || (x.msw == y.msw && x.lsw <= y.lsw)
  }

  predicate Lt(x: Num, y: Num) {
    x.msw < y.msw || (x.msw == y.msw && x.lsw < y.lsw)
  }

  predicate SignedLt(w: Widths, x: Num, y: Num)
    requires w.numBits >= 2
  {
    if Negative(w, x) == Negative(w, y) then Lt(x, y) else Negative(w, x)
  }

  // ----- What they compute -----

  lemma WidthFacts(w: Widths)
    requires w.Valid()
    ensures w.Msw() + w.Lsw() == w.numBits && 1 <= w.Msw() <= w.Lsw() <= w.subtypeBits
    ensures Pow2(w.numBits) == Pow2(w.Msw()) * Pow2(w.Lsw())
    ensures Pow2(w.Msw()) <= Pow2(w.Lsw()) && Pow2(w.Lsw()) <= Pow2(w.subtypeBits)
  {
    Pow2Add(w.Msw(), w.Lsw());
    Pow2Monotone(w.Msw(), w.Lsw());
    Pow2Monotone(w.Lsw(), w.subtypeBits);
  }

  lemma ValBound(w: Widths, x: Num)
    requires w.Valid() && Fits(w, x)
    ensures Val(w, x) < Modulus(w)
  {
    WidthFacts(w);
    TwoDigits(x.lsw, x.msw, Pow2(w.Msw()), Pow2(w.Lsw()));
  }

  lemma SplitHigh(lo: int, hi: int, q: int, r: int, m: int, l: int)
    requires hi == q * m + r
    ensures lo + hi * l == q * (m * l) + (lo + r * l)
  {
  }

  /** Truncating the high word truncates the whole number. */
  lemma ValMod(w: Widths, lsw: nat, msw: nat)
    requires w.Valid() && lsw < Pow2(w.Lsw())
    ensures Val(w, Num(msw % Pow2(w.Msw()), lsw)) == (lsw + msw * Pow2(w.Lsw())) % Modulus(w)
  {
    WidthFacts(w);
    var m, l := Pow2(w.Msw()), Pow2(w.Lsw());
    ValBound(w, Num(msw % m, lsw));
    DivMod(msw, m);
    SplitHigh(lsw, msw, msw / m, msw % m, m, l);
    DivModUnique(lsw + msw * l, m * l, msw / m, Val(w, Num(msw % m, lsw)));
  }

  lemma BitVal(w: Widths, x: Num, i: nat)
    requires Fits(w, x)
    ensures Bit(Val(w, x), i) == if i < w.Lsw() then Bit(x.lsw, i) else Bit(x.msw, i - w.Lsw())
  {
    BitConcat(x.lsw, x.msw, w.Lsw(), i);
  }

  /** The sums of the words, with the carry that the low one's wrap-around shows. */
  lemma PlusWords(w: Widths, x: Num, y: Num)
    requires w.Valid() && Fits(w, x) && Fits(w, y)
    ensures var m, l := Pow2(w.Msw()), Pow2(w.Lsw());
      var s, t := x.lsw + y.lsw, x.msw + y.msw;
      Plus(w, x, y) == if s < l then Num(t % m, s) else Num((t % m + 1) % m, s - l)
  {
    WidthFacts(w);
    var m, l := Pow2(w.Msw()), Pow2(w.Lsw());
    var s, t := x.lsw + y.lsw, x.msw + y.msw;
    ModMod(s, w.subtypeBits, w.Lsw());
    ModMod(t, w.subtypeBits, w.Msw());
    ModMod(t % m + 1, w.subtypeBits, w.Msw());
    WrapOnce(x.lsw, y.lsw, l);
  }

  lemma PlusRefines(w: Widths, x: Num, y: Num)
    requires w.Valid() && Fits(w, x) && Fits(w, y)
    ensures Val(w, Plus(w, x, y)) == (Val(w, x) + Val(w, y)) % Modulus(w)
  {
    WidthFacts(w);
    PlusWords(w, x, y);
    var m, l := Pow2(w.Msw()), Pow2(w.Lsw());
    var s, t := x.lsw + y.lsw, x.msw + y.msw;
    Distribute(x.msw, y.msw, l);
    if s < l {
      ValMod(w, s, t);
    } else {
      ModAddLeft(t, 1, m);
      ValMod(w, s - l, t + 1);
      Distribute(t, 1, l);
    }
  }

  lemma PlusExact(w: Widths, x: Num, y: Num)
    requires w.Valid() && Fits(w, x) && Fits(w, y) && Val(w, x) + Val(w, y) < Modulus(w)
    ensures Val(w, Plus(w, x, y)) == Val(w, x) + Val(w, y)
  {
    PlusRefines(w, x, y);
    ModSmall(Val(w, x) + Val(w, y), Modulus(w));
  }

  lemma ComplementRefines(w: Widths, x: Num)
    requires w.Valid() && Fits(w, x)
    ensures Val(w, Complement(w, x)) == Modulus(w) - 1 - Val(w, x)
  {
    WidthFacts(w);
    NotTruncated(x.msw, w.Msw(), w.subtypeBits);
    NotTruncated(x.lsw, w.Lsw(), w.subtypeBits);
    var m, l := Pow2(w.Msw()), Pow2(w.Lsw());
    Distribute(m - 1, x.msw, l);
    Distribute(m, 1, l);
  }

  lemma NotTruncated(x: nat, k: nat, n: nat)
    requires k <= n && x < Pow2(k)
    ensures x < Pow2(n)
    ensures Not(n, x) % Pow2(k) == Pow2(k) - 1 - x
  {
    Pow2Monotone(k, n);
    Pow2Add(n - k, k);
    var p, q := Pow2(k), Pow2(n - k);
    Distribute(q, 1, p);
    DivModUnique(Not(n, x), p, q - 1, p - 1 - x);
  }

  lemma NegRefines(w: Widths, x: Num)
    requires w.Valid() && Fits(w, x)
    ensures Val(w, Neg(w, x)) == if Val(w, x) == 0 then 0 else Modulus(w) - Val(w, x)
    ensures SVal(w, x) != 0 - Pow2(w.numBits - 1) ==> SVal(w, Neg(w, x)) == -SVal(w, x)
  {
    WidthFacts(w);
    ComplementRefines(w, x);
    assert Fits(w, One) by { Pow2Strict(0, w.Lsw()); }
    PlusRefines(w, Complement(w, x), One);
    ValBound(w, x);
    if Val(w, x) != 0 {
      ModSmall(Modulus(w) - Val(w, x), Modulus(w));
    } else {
      ModShift(0, 1, Modulus(w));
    }
  }

  lemma MinusRefines(w: Widths, x: Num, y: Num)
    requires w.Valid() && Fits(w, x) && Fits(w, y)
    ensures Val(w, Minus(w, x, y)) == (Val(w, x) - Val(w, y)) % Modulus(w)
    ensures Val(w, y) <= Val(w, x) ==> Val(w, Minus(w, x, y)) == Val(w, x) - Val(w, y)
  {
    NegRefines(w, y);
    PlusRefines(w, x, Neg(w, y));
    ValBound(w, x);
    ValBound(w, y);
    ModShift(Val(w, x) - Val(w, y), 1, Modulus(w));
    if Val(w, y) <= Val(w, x) {
      ModSmall(Val(w, x) - Val(w, y), Modulus(w));
    }
  }

  lemma CompareRefines(w: Widths, x: Num, y: Num)
    requires w.Valid() && Fits(w, x) && Fits(w, y)
    ensures Leq(x, y) == (Val(w, x) <= Val(w, y))
    ensures Lt(x, y) == (Val(w, x) < Val(w, y))
    ensures SignedLt(w, x, y) == (SVal(w, x) < SVal(w, y))
  {
    TwoDigitsOrder(x.lsw, x.msw, y.lsw, y.msw, Pow2(w.Lsw()));
    NegativeMeans(w, x);
    NegativeMeans(w, y);
    ValBound(w, x);
    ValBound(w, y);
  }

  lemma NegativeMeans(w: Widths, x: Num)
    requires w.Valid() && Fits(w, x)
    ensures Negative(w, x) == (Val(w, x) >= Pow2(w.numBits - 1)) == (SVal(w, x) < 0)
    ensures 0 - Pow2(w.numBits - 1) <= SVal(w, x) < Pow2(w.numBits - 1)
  {
    WidthFacts(w);
    AndBit(x.msw, w.Msw() - 1);
    BitVal(w, x, w.numBits - 1);
    ValBound(w, x);
    TopBit(Val(w, x), w.numBits);
  }

  /** Shifting left by k multiplies by 2^k modulo 2^N, for every count and every width. */
  lemma LshRefines(w: Widths, u: nat, x: Num, y: int)
    requires w.Valid() && Fits(w, x) && LshDefined(w, u, y)
    ensures Val(w, Lsh(w, u, x, y)) == (Val(w, x) * Pow2(ShiftCount(w, u, y))) % Modulus(w)
  {
    WidthFacts(w);
    var k, z, n := ShiftCount(w, u, y), Lsh(w, u, x, y), w.subtypeBits;
    if y == 0 {
      assert k == 0;
      ValBound(w, x);
      ModSmall(Val(w, x), Modulus(w));
    } else {
      forall i: nat
        ensures Bit(Val(w, z), i) == Bit((Val(w, x) * Pow2(k)) % Modulus(w), i)
      {
        BitMod(Val(w, x) * Pow2(k), w.numBits, i);
        BitMul(Val(w, x), k, i);
        BitVal(w, z, i);
        if i >= k {
          BitVal(w, x, i - k);
        }
        if k >= w.Lsw() {
          LshBitsFar(w, x, k, i);
        } else {
          LshBitsNear(w, x, k, i);
        }
      }
      BitExtensional(Val(w, z), (Val(w, x) * Pow2(k)) % Modulus(w));
    }
  }

  /** A shift that loses no bit multiplies exactly. */
  lemma LshExact(w: Widths, u: nat, x: Num, k: nat)
    requires w.Valid() && Fits(w, x) && k < w.numBits && k < Pow2(u)
    requires 0 <= Val(w, x) * Pow2(k) < Modulus(w)
    ensures LshDefined(w, u, k) && Val(w, Lsh(w, u, x, k)) == Val(w, x) * Pow2(k)
  {
    LshDefinedExact(w, u, k);
    LshRefines(w, u, x, k);
    SmallRemainder(Val(w, Lsh(w, u, x, k)), Val(w, x) * Pow2(k), Modulus(w));
  }

  lemma SmallRemainder(r: int, v: int, d: int)
    requires 0 <= v < d && r == v % d
    ensures r == v
  {
  }

  lemma LshBitsFar(w: Widths, x: Num, k: nat, i: nat)
    requires w.Valid() && Fits(w, x) && w.Lsw() <= k < w.numBits
    ensures i >= w.Lsw() ==>
      Bit(TMsw(w, Shl(w.subtypeBits, x.lsw, k - w.Lsw())), i - w.Lsw())
        == (k <= i < w.numBits && i - k < w.Lsw() && Bit(x.lsw, i - k))
    ensures !Bit(0, i)
  {
    WidthFacts(w);
    BitZero(i);
    if i >= w.Lsw() {
      BitMod(Shl(w.subtypeBits, x.lsw, k - w.Lsw()), w.Msw(), i - w.Lsw());
      BitShl(w.subtypeBits, x.lsw, k - w.Lsw(), i - w.Lsw());
      if i - k >= w.Lsw() {
        BitBelow(x.lsw, w.Lsw(), i - k);
      }
    }
  }

  lemma LshBitsNear(w: Widths, x: Num, k: nat, i: nat)
    requires w.Valid() && Fits(w, x) && k < w.Lsw()
    ensures i < w.Lsw() ==>
      Bit(TLsw(w, Shl(w.subtypeBits, x.lsw, k)), i) == (k <= i && Bit(x.lsw, i - k))
    ensures i >= w.Lsw() ==>
      Bit(TMsw(w, Or(Shl(w.subtypeBits, x.msw, k), Shr(x.lsw, w.Lsw() - k))), i - w.Lsw())
        == (i < w.numBits &&
            if i - k < w.Lsw() then Bit(x.lsw, i - k) else Bit(x.msw, i - k - w.Lsw()))
  {
    WidthFacts(w);
    if i < w.Lsw() {
      BitMod(Shl(w.subtypeBits, x.lsw, k), w.Lsw(), i);
      BitShl(w.subtypeBits, x.lsw, k, i);
    } else {
      var j := i - w.Lsw();
      BitMod(Or(Shl(w.subtypeBits, x.msw, k), Shr(x.lsw, w.Lsw() - k)), w.Msw(), j);
      BitOr(Shl(w.subtypeBits, x.msw, k), Shr(x.lsw, w.Lsw() - k), j);
      BitShl(w.subtypeBits, x.msw, k, j);
      BitShr(x.lsw, w.Lsw() - k, j);
      if i - k >= w.Lsw() {
        BitBelow(x.lsw, w.Lsw(), i - k);
      }
    }
  }

  /** Which bit of the operand each bit of the unsigned right shift is. */
  lemma RshBits(w: Widths, u: nat, x: Num, y: int, i: nat)
    requires w.Valid() && Fits(w, x) && RshDefined(w, u, y)
    ensures Bit(Val(w, Rsh(w, u, x, y)), i) == Bit(Val(w, x), i + ShiftCount(w, u, y))
  {
    WidthFacts(w);
    var k, z := ShiftCount(w, u, y), Rsh(w, u, x, y);
    var l := w.Lsw();
    BitVal(w, z, i);
    BitVal(w, x, i + k);
    if k >= l {
      BitShr(x.msw, k - l, i);
      if i >= l {
        BitZero(i - l);
        BitBelow(x.msw, w.Msw(), i + k - l);
      }
    } else if i >= l {
      BitShr(x.msw, k, i - l);
    } else {
      var a, b := Shr(x.lsw, k), Shl(w.subtypeBits, x.msw, l - k);
      BitMod(Or(a, b), l, i);
      BitOr(a, b, i);
      BitShr(x.lsw, k, i);
      BitShl(w.subtypeBits, x.msw, l - k, i);
      if i + k >= l {
        BitBelow(x.lsw, l, i + k);
      }
    }
  }

  lemma RshRefines(w: Widths, u: nat, x: Num, y: int)
    requires w.Valid() && Fits(w, x) && RshDefined(w, u, y)
    ensures Val(w, Rsh(w, u, x, y)) == Val(w, x) / Pow2(ShiftCount(w, u, y))
  {
    var k, z := ShiftCount(w, u, y), Rsh(w, u, x, y);
    var shifted := Shr(Val(w, x), k);
    forall i: nat
      ensures Bit(Val(w, z), i) == Bit(shifted, i)
    {
      RshBits(w, u, x, y, i);
      BitShr(Val(w, x), k, i);
    }
    BitExtensional(Val(w, z), shifted);
    ShrIsDiv(Val(w, x), k);
  }

  /** The fill is k ones at the top. */
  lemma SignFillBits(w: Widths, n: nat, k: nat, i: nat)
    requires n <= w.subtypeBits
    ensures Bit(SignFill(w, n, k), i) == (n <= i + k && i < n)
  {
    ShrLe(Pow2(n) - 1, k);
    Pow2Monotone(n, w.subtypeBits);
    var fill := Not(w.subtypeBits, Shr(Pow2(n) - 1, k));
    BitAnd(fill, Pow2(n) - 1, i);
    BitOnes(n, i);
    BitNot(w.subtypeBits, Shr(Pow2(n) - 1, k), i);
    BitShr(Pow2(n) - 1, k, i);
    BitOnes(n, i + k);
  }

  lemma SignedRshBits(w: Widths, u: nat, x: Num, y: int, i: nat)
    requires w.Valid() && Fits(w, x) && SignedRshDefined(w, u, x, y)
    ensures var k := ShiftCount(w, u, y);
      Bit(Val(w, SignedRsh(w, u, x, y)), i) ==
        if i + k < w.numBits then Bit(Val(w, x), i + k) else i < w.numBits && Negative(w, x)
  {
    var k, z, r := ShiftCount(w, u, y), Rsh(w, u, x, y), SignedRsh(w, u, x, y);
    BitVal(w, r, i);
    BitVal(w, z, i);
    RshBits(w, u, x, y, i);
    BitsAbove(w, x, i + k);
    BitsAbove(w, r, i);
    if Negative(w, x) && k > 0 {
      if k <= w.Msw() {
        if i >= w.Lsw() {
          SignFillBits(w, w.Msw(), k, i - w.Lsw());
          BitOr(z.msw, SignFill(w, w.Msw(), k), i - w.Lsw());
        }
      } else if i >= w.Lsw() {
        BitOnes(w.Msw(), i - w.Lsw());
      } else {
        SignFillBits(w, w.Lsw(), k - w.Msw(), i);
        BitOr(z.lsw, SignFill(w, w.Lsw(), k - w.Msw()), i);
      }
    }
  }

  lemma BitsAbove(w: Widths, x: Num, i: nat)
    requires w.Valid() && Fits(w, x)
    ensures i >= w.numBits ==> !Bit(Val(w, x), i)
  {
    ValBound(w, x);
    if i >= w.numBits {
      BitBelow(Val(w, x), w.numBits, i);
    }
  }

  /** Shifting a signed number right rounds its quotient by 2^k toward minus infinity. */
  lemma SignedRshRefines(w: Widths, u: nat, x: Num, y: int)
    requires w.Valid() && Fits(w, x) && SignedRshDefined(w, u, x, y)
    ensures SVal(w, SignedRsh(w, u, x, y)) == SVal(w, x) / Pow2(ShiftCount(w, u, y))
  {
    var r, k := SignedRsh(w, u, x, y), ShiftCount(w, u, y);
    SignBitKept(w, u, x, y);
    NegativeMeans(w, x);
    NegativeMeans(w, r);
    ValBound(w, x);
    forall i: nat
      ensures Bit(Val(w, r), i) ==
        if i + k < w.numBits then Bit(Val(w, x), i + k) else i < w.numBits && Negative(w, x)
    {
      SignedRshBits(w, u, x, y, i);
    }
    OnesAboveQuotient(Val(w, x), Val(w, r), w.numBits, k, Negative(w, x));
  }

  /** A shifted pattern with ones filled in from the top, read as an integer. */
  lemma OnesAboveQuotient(v: nat, r: nat, n: nat, k: nat, negative: bool)
    requires v < Pow2(n) && k <= n
    requires forall i: nat :: Bit(r, i) == if i + k < n then Bit(v, i + k) else i < n && negative
    ensures !negative ==> r == v / Pow2(k)
    ensures negative ==> r - Pow2(n) == (v - Pow2(n)) / Pow2(k)
  {
    var low, ones := Shr(v, k), if negative then Pow2(k) - 1 else 0;
    var a, p := Pow2(n - k), Pow2(k);
    assert Pow2(n) == a * p by { Pow2Add(n - k, k); }
    assert low < a by {
      ShrIsDiv(v, k);
      DivBelow(v, a, p);
    }
    forall i: nat
      ensures Bit(r, i) == Bit(low + ones * a, i)
    {
      BitConcat(low, ones, n - k, i);
      BitShr(v, k, i);
      if i >= n - k {
        BitOnes(k, i - (n - k));
        BitZero(i - (n - k));
      }
    }
    BitExtensional(r, low + ones * a);
    ShrIsDiv(v, k);
    if negative {
      QuotientOfNegative(v, a, p);
    }
  }

  lemma QuotientOfNegative(v: nat, a: nat, p: nat)
    requires p > 0
    ensures (v / p + (p - 1) * a) - a * p == (v - a * p) / p
  {
    ModShift(v, 0 - a, p);
    Distribute(p, 1, a);
  }

  lemma SignBitKept(w: Widths, u: nat, x: Num, y: int)
    requires w.Valid() && Fits(w, x) && SignedRshDefined(w, u, x, y)
    ensures (SVal(w, SignedRsh(w, u, x, y)) < 0) == (SVal(w, x) < 0)
  {
    var r := SignedRsh(w, u, x, y);
    SignedRshBits(w, u, x, y, w.numBits - 1);
    NegativeMeans(w, x);
    NegativeMeans(w, r);
    ValBound(w, x);
    ValBound(w, r);
    TopBit(Val(w, x), w.numBits);
    TopBit(Val(w, r), w.numBits);
  }
}
