/** Numbers written out digit by digit, with the digits taken from a written alphabet. */
module NumeralLiterals {
  import opened Bits
  import opened Numerals

  const Hex := "0123456789abcdef"
  const UpperHex := "0123456789ABCDEF"
  const Ten := "0123456789"
  const Eight := "01234567"
  const Two := "01"

  /** The digits of a base in their order. */
  predicate IsAlphabet(digits: string) {
    digits == Hex || digits == UpperHex || digits == Ten || digits == Eight || digits == Two
  }

  /** Each digit counts as what it stands for. */
  ghost predicate Counts(digits: string) {
    |digits| > 1 && forall k | 0 <= k < |digits| :: DigitValue(digits[k]) == k
  }

  lemma AlphabetCounts(digits: string)
    requires IsAlphabet(digits)
    ensures Counts(digits) && |digits| in {2, 8, 10, 16}
  {
  }

  /** v written in the base that there are digits for. */
  function Written(digits: string, v: nat): string
    requires |digits| > 1
    decreases v
  {
    if v < |digits| then [digits[v]]
    else
      Quotients(v, |digits|);
      Written(digits, v / |digits|) + [digits[v % |digits|]]
  }

  lemma Quotients(v: nat, b: nat)
    requires b > 1 && v >= b
    ensures 0 < v / b < v && v / b * b + v % b == v && 0 <= v % b < b
  {
    DivMod(v, b);
    var q := v / b;
    if q > 0 {
      MulLe(2, b, q);
    }
  }

  lemma {:induction false} WrittenReads(digits: string, v: nat)
    requires Counts(digits)
    ensures var s := Written(digits, v);
      s != [] && AllDigits(s, |digits|) && Number(s, |digits|) == v && (v > 0 ==> DigitValue(s[0]) > 0)
    decreases v
  {
    var b := |digits|;
    if v < b {
      OneDigit(digits[v], b);
    } else {
      Quotients(v, b);
      WrittenReads(digits, v / b);
      DigitAdded(Written(digits, v / b), digits[v % b], b);
    }
  }

  lemma {:induction false} OneDigit(c: char, base: nat)
    ensures Number([c], base) == DigitValue(c)
  {
    assert [c][..0] == [] && Number([], base) == 0;
  }

  lemma {:induction false} DigitAdded(s: string, c: char, base: nat)
    requires s != []
    ensures (s + [c])[0] == s[0] && Number(s + [c], base) == Number(s, base) * base + DigitValue(c)
    ensures AllDigits(s, base) && IsDigit(c, base) ==> AllDigits(s + [c], base)
  {
    assert (s + [c])[..|s|] == s;
  }

  /** A written number followed by something else is read up to there. */
  lemma {:induction false} RunOf(d: string, rest: string, base: nat)
    requires AllDigits(d, base) && (rest == [] || !IsDigit(rest[0], base))
    ensures DigitRun(d + rest, base) == |d| && (d + rest)[..|d|] == d
  {
    assert (d + rest)[..|d|] == d;
    RunIs(d + rest, base, |d|);
  }

  /** What the digits of each base are. */
  lemma DigitsAre(c: char)
    ensures IsDigit(c, 2) <==> c in Two
    ensures IsDigit(c, 8) <==> c in Eight
    ensures IsDigit(c, 10) <==> c in Ten
    ensures IsDigit(c, 16) <==> c in Hex || c in UpperHex
  {
  }
}
