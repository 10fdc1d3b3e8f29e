/** Digit strings in the bases of C's integer constants, and the numbers they denote. */
module Numerals {
  import opened Bits

  const NO_DIGIT := 16

  /** The value of a character as a digit, whatever the base. */
  function DigitValue(c: char): nat {
    if '0' <= c <= '9' then c as int - '0' as int
    else if 'a' <= c <= 'f' then c as int - 'a' as int + 10
    else if 'A' <= c <= 'F' then c as int - 'A' as int + 10
    else NO_DIGIT
  }

  predicate IsDigit(c: char, base: nat) {
    DigitValue(c) < base
  }

  ghost predicate AllDigits(s: string, base: nat) {
    forall c | c in s :: IsDigit(c, base)
  }

  /** The number a digit string denotes. */
  function Number(s: string, base: nat): nat {
    if s == [] then 0 else Number(s[..|s| - 1], base) * base + DigitValue(s[|s| - 1])
  }

  /** How many digits s starts with. */
  function DigitRun(s: string, base: nat): (n: nat)
    ensures n <= |s|
    ensures AllDigits(s[..n], base)
    ensures n < |s| ==> !IsDigit(s[n], base)
  {
    if s == [] || !IsDigit(s[0], base) then 0
    else
      var n := 1 + DigitRun(s[1..], base);
      assert s[..n] == [s[0]] + s[1..][..n - 1];
      n
  }

  lemma RunReaches(s: string, base: nat, c: nat)
    requires c < |s| && c <= DigitRun(s, base) && IsDigit(s[c], base)
    ensures c + 1 <= DigitRun(s, base)
  {
  }

  /** A run is where the digits are and no more. */
  lemma RunIs(s: string, base: nat, c: nat)
    requires c <= |s| && AllDigits(s[..c], base)
    requires c < |s| ==> !IsDigit(s[c], base)
    ensures DigitRun(s, base) == c
  {
    if c > 0 {
      assert s[0] == s[..c][0];
      assert forall x | x in s[1..][..c - 1] :: x in s[..c];
      RunIs(s[1..], base, c - 1);
    }
  }

  lemma NumberStep(s: string, base: nat, c: nat)
    requires c < |s|
    ensures Number(s[..c + 1], base) == Number(s[..c], base) * base + DigitValue(s[c])
  {
    assert s[..c + 1][..c] == s[..c];
  }

  lemma NumberGrows(s: string, base: nat, c: nat, n: nat)
    requires c <= n <= |s| && base > 0
    ensures Number(s[..c], base) <= Number(s[..n], base)
    decreases n - c
  {
    if c < n {
      NumberStep(s, base, c);
      MulLe(1, base, Number(s[..c], base));
      NumberGrows(s, base, c + 1, n);
    }
  }
}
