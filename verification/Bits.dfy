/**
 Natural numbers seen as bit patterns of any width: the C operators on unsigned words
 (`<<`, `>>`, `&`, `|`, `~`), given by arithmetic or by recursion on the binary digits,
 and the lemmas that say which bit of a result comes from where.
 */
module Bits {

  function Pow2(n: nat): (p: nat)
    ensures p > 0
  {
    if n == 0 then 1 else 2 * Pow2(n - 1)
  }

  /** Bit i of x, least significant bit first. */
  predicate Bit(x: nat, i: nat) {
    if i == 0 then x % 2 == 1 else Bit(x / 2, i - 1)
  }

  function And(x: nat, y: nat): nat {
    if x == 0 then 0 else 2 * And(x / 2, y / 2) + (if x % 2 == 1 && y % 2 == 1 then 1 else 0)
  }

  function Or(x: nat, y: nat): nat
    decreases x + y
  {
    if x == 0 then y else 2 * Or(x / 2, y / 2) + (if x % 2 == 1 || y % 2 == 1 then 1 else 0)
  }

  /** `~x` on an n-bit word. */
  function Not(n: nat, x: nat): nat
    requires x < Pow2(n)
  {
    Pow2(n) - 1 - x
  }

  /** `x << k` on an n-bit word, which drops what is shifted out at the top. */
  function Shl(n: nat, x: nat, k: nat): (r: nat)
    ensures r < Pow2(n)
  {
    if n == 0 then 0
    else if k == 0 then 2 * Shl(n - 1, x / 2, 0) + x % 2
    else 2 * Shl(n - 1, x, k - 1)
  }

  lemma ShlIsMul(n: nat, x: nat, k: nat)
    ensures Shl(n, x, k) == (x * Pow2(k)) % Pow2(n)
  {
    if n > 0 {
      if k == 0 {
        ShlIsMul(n - 1, x / 2, 0);
        DoubledRemainder(x / 2, x % 2, Pow2(n - 1));
      } else {
        ShlIsMul(n - 1, x, k - 1);
        DoubledShift(x, Pow2(k - 1), Pow2(n - 1));
      }
    }
  }

  lemma DoubledShift(x: int, p: int, m: int)
    requires m > 0
    ensures (x * (2 * p)) % (2 * m) == 2 * ((x * p) % m)
  {
    DoubledRemainder(x * p, 0, m);
    DoubledProduct(x, p);
  }

  lemma DoubledProduct(x: int, p: int)
    ensures x * (2 * p) == 2 * (x * p)
  {
  }

  lemma DoubledRemainder(y: int, b: int, d: int)
    requires d > 0 && 0 <= b < 2
    ensures (2 * y + b) % (2 * d) == 2 * (y % d) + b
  {
    DivMod(y, d);
    assert 2 * y + b == (y / d) * (2 * d) + (2 * (y % d) + b);
    DivModUnique(2 * y + b, 2 * d, y / d, 2 * (y % d) + b);
  }

  /** `x >> k` on an unsigned word. */
  function Shr(x: nat, k: nat): nat
    decreases k
  {
    if k == 0 then x else Shr(x / 2, k - 1)
  }

  lemma ShrIsDiv(x: nat, k: nat)
    ensures Shr(x, k) == x / Pow2(k)
    decreases k
  {
    if k > 0 {
      ShrIsDiv(x / 2, k - 1);
      DivDiv(x, 2, Pow2(k - 1));
    }
  }

  lemma ShrLe(x: nat, k: nat)
    ensures Shr(x, k) <= x
    decreases k
  {
    if k > 0 {
      ShrLe(x / 2, k - 1);
    }
  }

  // ----- Division -----

  lemma MultipleGap(k: int, d: int)
    requires d >= 0
    ensures k > 0 ==> k * d >= d
    ensures k < 0 ==> k * d <= -d
  {
    if k > 0 {
      assert (k - 1) * d >= 0;
    } else if k < 0 {
      assert (-k - 1) * d >= 0;
    }
  }

  lemma DivModUnique(x: int, d: int, q: int, r: int)
    requires 0 <= r < d
    requires x == q * d + r
    ensures x / d == q && x % d == r
  {
    var e := x / d - q;
    assert e * d == r - x % d;
    MultipleGap(e, d);
  }

  lemma DivDiv(x: nat, a: nat, b: nat)
    requires a > 0 && b > 0
    ensures a * b > 0
    ensures (x / a) / b == x / (a * b)
    ensures x % (a * b) == a * ((x / a) % b) + x % a
  {
    var q, r := x / a, x % a;
    var q', r' := q / b, q % b;
    Nested(q', r', r, a, b);
    DivModUnique(x, a * b, q', r' * a + r);
  }

  /** Two digits of base b below a top part, the lower one of base a. */
  lemma Nested(q: int, r: int, s: int, a: int, b: int)
    requires 0 <= r < b && 0 <= s < a
    ensures a * b > 0 && (q * b + r) * a + s == q * (a * b) + (r * a + s) && 0 <= r * a + s < a * b
  {
    assert r * a <= (b - 1) * a;
    assert r * a >= 0;
  }

  lemma DivMod(x: int, d: int)
    requires d > 0
    ensures x == x % d + (x / d) * d && 0 <= x % d < d
  {
  }

  /** A multiple of d does not change a remainder. */
  lemma ModShift(x: int, k: int, d: int)
    requires d > 0
    ensures (x + k * d) % d == x % d
    ensures (x + k * d) / d == x / d + k
  {
    assert x + k * d == (x / d + k) * d + x % d;
    DivModUnique(x + k * d, d, x / d + k, x % d);
  }

  lemma ModShiftLeft(x: int, k: int, d: int)
    requires d > 0
    ensures (d * k + x) % d == x % d
  {
    ModShift(x, k, d);
  }

  lemma DivLe(m: nat, d: nat)
    requires d > 0
    ensures m / d <= m
  {
    var q := m / d;
    assert m == q * d + m % d;
    MulLe(1, d, q);
  }

  /** A quotient by d of a number below b * d is below b. */
  lemma DivBelow(x: nat, b: nat, d: nat)
    requires d > 0 && x < b * d
    ensures x / d < b
  {
    var q := x / d;
    assert q * d <= x;
    MultipleGap(q - b + 1, d);
    assert (q - b + 1) * d == q * d - b * d + d;
  }

  lemma MulLe(a: int, b: int, c: int)
    requires a <= b && c >= 0
    ensures a * c <= b * c && c * a <= c * b
  {
    assert (b - a) * c >= 0;
  }

  /** A number of two digits, the low one below l and the high one below m. */
  lemma TwoDigits(lo: int, hi: int, m: int, l: int)
    requires 0 <= lo < l && 0 <= hi < m
    ensures 0 <= lo + hi * l < m * l
  {
    MulLe(0, hi, l);
    MulLe(hi + 1, m, l);
  }

  lemma TwoDigitsOrder(lo: int, hi: int, lo': int, hi': int, l: int)
    requires 0 <= lo < l && 0 <= lo' < l
    ensures lo + hi * l < lo' + hi' * l <==> hi < hi' || (hi == hi' && lo < lo')
    ensures lo + hi * l <= lo' + hi' * l <==> hi < hi' || (hi == hi' && lo <= lo')
  {
    if hi < hi' {
      MulLe(hi + 1, hi', l);
    } else if hi' < hi {
      MulLe(hi' + 1, hi, l);
    }
  }

  lemma Distribute(a: int, b: int, c: int)
    ensures (a + b) * c == a * c + b * c
    ensures (a - b) * c == a * c - b * c
  {
  }

  lemma ModSmall(x: nat, d: nat)
    requires x < d
    ensures x % d == x && x / d == 0
  {
    DivModUnique(x, d, 0, x);
  }

  lemma WrapOnce(x: nat, y: nat, d: nat)
    requires x < d && y < d
    ensures (y + x) % d == if x + y < d then x + y else x + y - d
  {
    if x + y < d {
      ModSmall(x + y, d);
    } else {
      DivModUnique(x + y, d, 1, x + y - d);
    }
  }

  lemma ModAddLeft(x: int, y: int, d: int)
    requires d > 0
    ensures ((x % d) + y) % d == (x + y) % d
  {
    ModShift((x % d) + y, x / d, d);
  }

  /** Adding y keeps the remainder exactly when y is a multiple. */
  lemma SameRemainder(x: int, y: int, d: int)
    requires d > 0
    ensures (x + y) % d == x % d <==> y % d == 0
  {
    DivMod(x, d);
    DivMod(y, d);
    DivMod(x + y, d);
    var k := (x + y) / d - x / d;
    Distribute((x + y) / d, x / d, d);
    if (x + y) % d == x % d {
      assert y == k * d;
      ModShift(0, k, d);
    } else if y % d == 0 {
      ModShift(x, y / d, d);
    }
  }

  lemma ModMulLeft(x: int, y: int, d: int)
    requires d > 0
    ensures ((x % d) * y) % d == (x * y) % d
  {
    assert x * y == (x % d) * y + ((x / d) * y) * d;
    ModShift((x % d) * y, (x / d) * y, d);
  }

  // ----- Powers of two -----

  lemma Pow2Add(a: nat, b: nat)
    ensures Pow2(a + b) == Pow2(a) * Pow2(b)
  {
    if a > 0 {
      Pow2Add(a - 1, b);
      assert Pow2(a + b) == 2 * Pow2((a - 1) + b);
    }
  }

  lemma Pow2Monotone(a: nat, b: nat)
    requires a <= b
    ensures Pow2(a) <= Pow2(b)
    decreases b
  {
    if a < b {
      Pow2Monotone(a, b - 1);
    }
  }

  lemma Pow2Strict(a: nat, b: nat)
    requires a < b
    ensures 2 * Pow2(a) <= Pow2(b)
  {
    Pow2Monotone(a + 1, b);
  }

  lemma Pow2Values()
    ensures Pow2(1) == 2 && Pow2(2) == 4 && Pow2(3) == 8 && Pow2(4) == 16
    ensures Pow2(8) == 0x100 && Pow2(16) == 0x1_0000
    ensures Pow2(32) == 0x1_0000_0000 && Pow2(64) == 0x1_0000_0000_0000_0000
  {
    assert Pow2(4) == 16 by {
      assert Pow2(2) == 4;
    }
    Pow2Add(4, 4);
    var a := Pow2(8);
    assert Pow2(8 + 8) == a * a by { Pow2Add(8, 8); }
    assert a * a == 0x1_0000;
    var b := Pow2(16);
    assert Pow2(16 + 16) == b * b by { Pow2Add(16, 16); }
    var c := Pow2(32);
    assert Pow2(32 + 32) == c * c by { Pow2Add(32, 32); }
  }

  // ----- Where the bits of a result come from -----

  lemma BitZero(i: nat)
    ensures !Bit(0, i)
  {
    if i > 0 {
      BitZero(i - 1);
    }
  }

  /** Numbers with the same bits are equal. */
  lemma BitExtensional(x: nat, y: nat)
    requires forall i: nat :: Bit(x, i) == Bit(y, i)
    ensures x == y
    decreases x + y
  {
    assert Bit(x, 0) == Bit(y, 0);
    if x > 0 || y > 0 {
      forall i: nat
        ensures Bit(x / 2, i) == Bit(y / 2, i)
      {
        assert Bit(x, i + 1) == Bit(y, i + 1);
      }
      BitExtensional(x / 2, y / 2);
    }
  }

  lemma BitShr(x: nat, k: nat, i: nat)
    ensures Bit(Shr(x, k), i) == Bit(x, i + k)
    decreases k
  {
    if k > 0 {
      BitShr(x / 2, k - 1, i);
    }
  }

  /** A low part of k bits below a high part. */
  lemma BitConcat(x: nat, y: nat, k: nat, i: nat)
    requires x < Pow2(k)
    ensures Bit(x + y * Pow2(k), i) == if i < k then Bit(x, i) else Bit(y, i - k)
    decreases k
  {
    if k > 0 {
      var z := x + y * Pow2(k);
      var p := Pow2(k - 1);
      assert y * Pow2(k) == 2 * (y * p);
      assert z / 2 == x / 2 + y * p && z % 2 == x % 2;
      if i > 0 {
        BitConcat(x / 2, y, k - 1, i - 1);
      }
    } else {
      assert x == 0 && y * Pow2(0) == y;
    }
  }

  lemma BitMul(x: nat, k: nat, i: nat)
    ensures Bit(x * Pow2(k), i) == (i >= k && Bit(x, i - k))
  {
    BitConcat(0, x, k, i);
    BitZero(i);
  }

  lemma BitBelow(x: nat, n: nat, i: nat)
    requires x < Pow2(n) && n <= i
    ensures !Bit(x, i)
  {
    BitConcat(x, 0, n, i);
    BitZero(i - n);
    assert 0 * Pow2(n) == 0;
  }

  lemma BitMod(x: nat, n: nat, i: nat)
    ensures Bit(x % Pow2(n), i) == (i < n && Bit(x, i))
  {
    var q, r := Shr(x, n), x % Pow2(n);
    ShrIsDiv(x, n);
    DivMod(x, Pow2(n));
    BitConcat(r, q, n, i);
    if i >= n {
      BitBelow(r, n, i);
    }
  }

  /** A number whose bits all lie below n is below 2^n. */
  lemma BoundFromBits(x: nat, n: nat)
    requires forall i: nat | i >= n :: !Bit(x, i)
    ensures x < Pow2(n)
  {
    forall i: nat
      ensures Bit(x, i) == Bit(x % Pow2(n), i)
    {
      BitMod(x, n, i);
    }
    BitExtensional(x, x % Pow2(n));
  }

  lemma BitAnd(x: nat, y: nat, i: nat)
    ensures Bit(And(x, y), i) == (Bit(x, i) && Bit(y, i))
    decreases x
  {
    if x == 0 {
      BitZero(i);
    } else if i > 0 {
      BitAnd(x / 2, y / 2, i - 1);
    }
  }

  lemma BitOr(x: nat, y: nat, i: nat)
    ensures Bit(Or(x, y), i) == (Bit(x, i) || Bit(y, i))
    decreases x + y
  {
    if x == 0 {
      BitZero(i);
    } else if i > 0 {
      BitOr(x / 2, y / 2, i - 1);
    }
  }

  lemma BitNot(n: nat, x: nat, i: nat)
    requires x < Pow2(n)
    ensures Bit(Not(n, x), i) == (i < n && !Bit(x, i))
    decreases n
  {
    var z := Not(n, x);
    if n == 0 {
      BitZero(i);
    } else {
      assert z / 2 == Not(n - 1, x / 2) && z % 2 == 1 - x % 2;
      if i > 0 {
        BitNot(n - 1, x / 2, i - 1);
      }
    }
  }

  /** A run of k ones. */
  lemma BitOnes(k: nat, i: nat)
    ensures Bit(Pow2(k) - 1, i) == (i < k)
  {
    BitNot(k, 0, i);
    BitZero(i);
  }

  lemma OrBound(x: nat, y: nat, n: nat)
    requires x < Pow2(n) && y < Pow2(n)
    ensures Or(x, y) < Pow2(n)
  {
    forall i: nat | i >= n
      ensures !Bit(Or(x, y), i)
    {
      BitOr(x, y, i);
      BitBelow(x, n, i);
      BitBelow(y, n, i);
    }
    BoundFromBits(Or(x, y), n);
  }

  /** Or-ing parts that share no bit position is adding them. */
  lemma OrDisjoint(x: nat, y: nat, k: nat)
    requires x < Pow2(k)
    ensures Or(x, y * Pow2(k)) == x + y * Pow2(k)
    ensures Or(y * Pow2(k), x) == x + y * Pow2(k)
  {
    forall i: nat
      ensures Bit(Or(x, y * Pow2(k)), i) == Bit(x + y * Pow2(k), i)
      ensures Bit(Or(y * Pow2(k), x), i) == Bit(x + y * Pow2(k), i)
    {
      BitOr(x, y * Pow2(k), i);
      BitOr(y * Pow2(k), x, i);
      BitMul(y, k, i);
      BitConcat(x, y, k, i);
      if i >= k {
        BitBelow(x, k, i);
      }
    }
    BitExtensional(Or(x, y * Pow2(k)), x + y * Pow2(k));
    BitExtensional(Or(y * Pow2(k), x), x + y * Pow2(k));
  }

  /** And-ing with a run of ones keeps a remainder. */
  lemma AndOnes(x: nat, k: nat)
    ensures And(x, Pow2(k) - 1) == x % Pow2(k)
  {
    forall i: nat
      ensures Bit(And(x, Pow2(k) - 1), i) == Bit(x % Pow2(k), i)
    {
      BitAnd(x, Pow2(k) - 1, i);
      BitOnes(k, i);
      BitMod(x, k, i);
    }
    BitExtensional(And(x, Pow2(k) - 1), x % Pow2(k));
  }

  lemma BitShl(n: nat, x: nat, k: nat, i: nat)
    ensures Bit(Shl(n, x, k), i) == (k <= i < n && Bit(x, i - k))
  {
    if n == 0 {
      BitZero(i);
    } else if i > 0 {
      if k == 0 {
        BitShl(n - 1, x / 2, 0, i - 1);
      } else {
        BitShl(n - 1, x, k - 1, i - 1);
      }
    }
  }

  /** Truncating twice is truncating to the shorter width. */
  lemma ModMod(x: nat, n: nat, k: nat)
    requires k <= n
    ensures (x % Pow2(n)) % Pow2(k) == x % Pow2(k)
  {
    Pow2Add(k, n - k);
    DivDiv(x, Pow2(k), Pow2(n - k));
    ModShiftLeft(x % Pow2(k), (x / Pow2(k)) % Pow2(n - k), Pow2(k));
    ModSmall(x % Pow2(k), Pow2(k));
  }

  /** Testing one bit with a mask. */
  lemma AndBit(x: nat, k: nat)
    ensures (And(x, Pow2(k)) != 0) == Bit(x, k)
    decreases k
  {
    forall i: nat
      ensures Bit(And(x, Pow2(k)), i) == (i == k && Bit(x, k))
    {
      BitAnd(x, Pow2(k), i);
      BitMul(1, k, i);
      if i > k {
        BitZero(i - k - 1);
      }
    }
    if Bit(x, k) {
      BitZero(k);
      assert Bit(And(x, Pow2(k)), k);
    } else {
      forall i: nat
        ensures Bit(And(x, Pow2(k)), i) == Bit(0, i)
      {
        BitZero(i);
      }
      BitExtensional(And(x, Pow2(k)), 0);
    }
  }

  /** A remainder has the remainders of factors of what it is taken by. */
  lemma ModFactor(v: int, a: int, b: int)
    requires a > 0 && b > 0
    ensures a * b > 0 && (v % (a * b)) % a == v % a
  {
    FactorsPositive(a, b);
    var q := v / (a * b);
    DivMod(v, a * b);
    FactorsMoved(a, b, q);
    ModShift(v % (a * b), b * q, a);
  }

  lemma FactorsPositive(a: int, b: int)
    requires a > 0 && b > 0
    ensures a * b > 0
  {
  }

  lemma FactorsMoved(a: int, b: int, q: int)
    ensures (b * q) * a == q * (a * b)
  {
  }

  /** The top bit of an n-bit word says which half of the range the word is in. */
  lemma TopBit(x: nat, n: nat)
    requires n > 0 && x < Pow2(n)
    ensures Bit(x, n - 1) == (x >= Pow2(n - 1))
  {
    var p := Pow2(n - 1);
    if x < p {
      BitBelow(x, n - 1, n - 1);
    } else {
      BitConcat(x - p, 1, n - 1, n - 1);
    }
  }
}
