/**
 What strings mean as integers: spaces, a sign, spaces, one of the prefixes, and digits.
 */
module IntegerPrefixes {
  import opened Bits
  import opened Numerals
  import opened NumeralLiterals
  import opened IntegerCodec
  import opened IntegerStrings

  const Spaces := " \t\n\U{0B}\U{0C}\r"

  ghost predicate Blank(s: string) {
    forall c | c in s :: c in Spaces
  }

  lemma SpaceIs(c: char)
    ensures IsSpace(c) <==> c in Spaces
  {
  }

  /** A numeral of the grammar; spaces after the sign need one. */
  ghost predicate WellFormed(before: string, sign: string, between: string, after: string) {
    Blank(before) && Blank(between) && Blank(after) && sign in {"", "+", "-"} && (sign == "" ==> between == "")
  }

  /** What goes in front of the digits of a base. */
  ghost predicate PrefixOf(prefix: string, digits: string, v: nat) {
    || (prefix == "0x" && (digits == Hex || digits == UpperHex))
    || (prefix == "0b" && digits == Two)
    || (prefix == "0" && digits == Eight)
    || (prefix == "" && digits == Ten && v > 0)
  }

  ghost function Numeral(before: string, sign: string, between: string, prefix: string, digits: string, v: nat,
                         after: string): string
    requires |digits| > 1
  {
    before + (sign + (between + (prefix + (Written(digits, v) + after))))
  }

  ghost predicate AllSpaces(s: string) {
    forall c | c in s :: IsSpace(c)
  }

  lemma BlankIs(s: string)
    requires Blank(s)
    ensures AllSpaces(s)
  {
    forall c | c in s
      ensures IsSpace(c)
    {
      SpaceIs(c);
    }
  }

  lemma {:induction false} Skips(s: string, i: nat, n: nat)
    requires i <= n <= |s| && (forall k | i <= k < n :: IsSpace(s[k])) && (n == |s| || !IsSpace(s[n]))
    ensures SkipSpaces(s, i) == n
    decreases n - i
  {
    if i < n {
      Skips(s, i + 1, n);
    }
  }

  lemma {:induction false} SkipsPart(a: string, sp: string, rest: string)
    requires AllSpaces(sp) && (rest == [] || !IsSpace(rest[0]))
    ensures SkipSpaces(a + (sp + rest), |a|) == |a| + |sp|
  {
    var s := a + (sp + rest);
    assert forall k | 0 <= k < |sp| :: s[|a| + k] == sp[k];
    assert rest != [] ==> s[|a| + |sp|] == rest[0];
    Skips(s, |a|, |a| + |sp|);
  }

  /** Where the parts of a string that starts with spaces and a sign are. */
  lemma {:induction false} SignReads(before: string, sign: string, between: string, rest: string)
    requires AllSpaces(before) && AllSpaces(between) && sign in {"", "+", "-"} && (sign == "" ==> between == "")
    requires rest != [] && !IsSpace(rest[0]) && rest[0] != '+' && rest[0] != '-'
    ensures var s := before + (sign + (between + rest));
      var i := SkipSpaces(s, 0);
      var j := |before| + |sign| + |between|;
      && (At(s, i) == '-' <==> sign == "-") && (At(s, i) == '+' <==> sign == "+")
      && j == (if sign != "" then SkipSpaces(s, i + 1) else i) && s[j..] == rest
  {
    var s, j := before + (sign + (between + rest)), |before| + |sign| + |between|;
    if sign == "" {
      assert s == [] + (before + rest);
      SkipsPart([], before, rest);
      assert s[|before|] == rest[0];
    } else {
      SignThere(before, sign[0], between, rest);
      assert sign == [sign[0]];
    }
    assert s[j..] == rest;
  }

  lemma {:induction false} SignThere(before: string, sign: char, between: string, rest: string)
    requires AllSpaces(before) && AllSpaces(between) && (sign == '+' || sign == '-')
    requires rest != [] && !IsSpace(rest[0])
    ensures var s := before + ([sign] + (between + rest));
      && SkipSpaces(s, 0) == |before| && At(s, |before|) == sign
      && SkipSpaces(s, |before| + 1) == |before| + 1 + |between|
  {
    var tail := [sign] + (between + rest);
    var s := before + tail;
    assert tail[0] == sign && s[|before|] == tail[0];
    assert s == [] + (before + tail) && s == (before + [sign]) + (between + rest);
    SkipsPart([], before, tail);
    SkipsPart(before + [sign], between, rest);
  }

  /** The prefix of each base; a decimal number does not start with a zero. */
  ghost predicate Prefixes(prefix: string, base: nat, d: string) {
    || (prefix == "0x" && base == 16) || (prefix == "0b" && base == 2) || (prefix == "0" && base == 8)
    || (prefix == "" && base == 10 && (d == [] || d[0] != '0'))
  }

  lemma {:induction false} PrefixReads(prefix: string, base: nat, d: string, tail: string)
    requires d != [] && AllDigits(d, base) && Prefixes(prefix, base, d)
    ensures var rest := prefix + (d + tail);
      && rest != [] && !IsSpace(rest[0]) && rest[0] != '+' && rest[0] != '-'
      && (prefix == "" <==> rest[0] != '0')
      && (prefix == "0x" <==> rest[0] == '0' && At(rest, 1) == 'x')
      && (prefix == "0b" <==> rest[0] == '0' && At(rest, 1) == 'b')
      && rest[|prefix|..] == d + tail
  {
    var rest := prefix + (d + tail);
    assert (d + tail)[0] == d[0] && d[0] in d && IsDigit(d[0], base);
    assert rest[|prefix|] == d[0];
    assert prefix != "" ==> rest[0] == prefix[0];
    assert |prefix| > 1 ==> rest[1] == prefix[1];
  }

  /** How a numeral is taken apart. */
  lemma {:induction false} TakenApart(before: string, sign: string, between: string, prefix: string, base: nat,
                                      d: string, tail: string)
    requires AllSpaces(before) && AllSpaces(between) && sign in {"", "+", "-"} && (sign == "" ==> between == "")
    requires d != [] && AllDigits(d, base) && Prefixes(prefix, base, d)
    ensures var s := before + (sign + (between + (prefix + (d + tail))));
      var start := |before| + |sign| + |between| + |prefix|;
      && ReadPrefix(s) == IntegerStrings.Numeral(sign == "-", base, start)
      && From(s, start) == d + tail && |s| == start + |d| + |tail|
  {
    var rest := prefix + (d + tail);
    var s := before + (sign + (between + rest));
    PrefixReads(prefix, base, d, tail);
    SignReads(before, sign, between, rest);
    var j := |before| + |sign| + |between|;
    assert s[j] == s[j..][0] && At(s, j + 1) == At(s[j..], 1);
    PrefixTaken(s, sign == "-", sign != "", j, prefix, base);
    RestTaken(s, j, rest, |prefix|, d + tail);
  }

  lemma PrefixTaken(s: string, negative: bool, signed: bool, j: nat, prefix: string, base: nat)
    requires j < |s| && Prefixes(prefix, base, [])
    requires var i := SkipSpaces(s, 0);
      && (At(s, i) == '-' <==> negative) && (At(s, i) == '-' || At(s, i) == '+' <==> signed)
      && j == if signed then SkipSpaces(s, i + 1) else i
    requires prefix == "" <==> s[j] != '0'
    requires prefix == "0x" <==> s[j] == '0' && At(s, j + 1) == 'x'
    requires prefix == "0b" <==> s[j] == '0' && At(s, j + 1) == 'b'
    ensures ReadPrefix(s) == IntegerStrings.Numeral(negative, base, j + |prefix|)
  {
  }

  lemma RestTaken(s: string, j: nat, rest: string, k: nat, tail: string)
    requires j <= |s| && s[j..] == rest && k <= |rest| && rest[k..] == tail
    ensures j + k <= |s| && s[j + k..] == tail
  {
  }

  /** The same, with the digits of a number. */
  lemma {:induction false} NumeralReads(before: string, sign: string, between: string, prefix: string, digits: string,
                                        v: nat, tail: string)
    requires WellFormed(before, sign, between, "") && PrefixOf(prefix, digits, v)
    ensures var d, start := Written(digits, v), |before| + |sign| + |between| + |prefix|;
      var s := Numeral(before, sign, between, prefix, digits, v, tail);
      && ReadPrefix(s) == IntegerStrings.Numeral(sign == "-", |digits|, start)
      && From(s, start) == d + tail && |s| == start + |d| + |tail|
      && Counts(digits) && |digits| <= 16 && AllDigits(d, |digits|) && Number(d, |digits|) == v
  {
    BlankIs(before);
    BlankIs(between);
    AlphabetCounts(digits);
    WrittenReads(digits, v);
    var d := Written(digits, v);
    PrefixIs(prefix, digits, v, d);
    TakenApart(before, sign, between, prefix, |digits|, d, tail);
  }

  lemma {:induction false} PrefixIs(prefix: string, digits: string, v: nat, d: string)
    requires PrefixOf(prefix, digits, v) && d != [] && (v > 0 ==> DigitValue(d[0]) > 0)
    ensures Prefixes(prefix, |digits|, d)
  {
  }

  /** What follows does not belong to the digits. */
  lemma SpaceIsNoDigit(s: string, base: nat)
    requires AllSpaces(s) && base <= 16
    ensures s == [] || !IsDigit(s[0], base)
  {
    if s != [] {
      assert s[0] in s;
    }
  }

  /** Parsing a numeral gives its number, negative after a minus sign, modulo 2^64: with `0x` and digits of either
      case it is hexadecimal, with `0b` binary, with `0` octal, and otherwise decimal. */
  lemma {:induction false} NumeralMeans(before: string, sign: string, between: string, prefix: string, digits: string,
                                        v: nat, after: string)
    requires WellFormed(before, sign, between, after) && PrefixOf(prefix, digits, v)
    ensures var s := Numeral(before, sign, between, prefix, digits, v, after);
      ReadPrefix(s).negative == (sign == "-") && ParsedPattern(s) == (if sign == "-" then 0 - v else v) % W64
  {
    NumeralReads(before, sign, between, prefix, digits, v, after);
    BlankIs(after);
    SpaceIsNoDigit(after, |digits|);
    var s := Numeral(before, sign, between, prefix, digits, v, after);
    DigitsMean(s, Written(digits, v), after);
    assert ParsedPattern(s) == Wrapped(sign == "-", v);
  }

  lemma {:induction false} DigitsMean(s: string, d: string, tail: string)
    requires var n := ReadPrefix(s);
      From(s, n.start) == d + tail && AllDigits(d, n.base) && (tail == [] || !IsDigit(tail[0], n.base))
    ensures Magnitude(s) == Number(d, ReadPrefix(s).base)
  {
    RunOf(d, tail, ReadPrefix(s).base);
  }

  /** Such a string counts as an integer of its base. */
  lemma {:induction false} NumeralCounts(before: string, sign: string, between: string, prefix: string, digits: string,
                                         v: nat, after: string)
    requires WellFormed(before, sign, between, after) && PrefixOf(prefix, digits, v)
    ensures BaseOf(Numeral(before, sign, between, prefix, digits, v, after)) ==
      if prefix == "0x" then 16 else if prefix == "0b" then 2 else if prefix == "0" then 8 else 10
  {
    NumeralReads(before, sign, between, prefix, digits, v, after);
    BlankIs(after);
    SpaceIsNoDigit(after, |digits|);
    assert after == after + [];
    EndsAfter(Numeral(before, sign, between, prefix, digits, v, after), Written(digits, v), after, []);
    BaseSize(prefix, digits, v);
  }

  /** Whether anything but spaces follows the digits. */
  lemma {:induction false} EndsAfter(s: string, d: string, after: string, garbage: string)
    requires var n := ReadPrefix(s);
      n.start <= |s| && From(s, n.start) == d + (after + garbage) && AllDigits(d, n.base)
      && (after + garbage == [] || !IsDigit((after + garbage)[0], n.base))
    requires AllSpaces(after) && (garbage == [] || (!IsSpace(garbage[0]) && garbage[0] != '\0'))
    ensures BaseOf(s) == if garbage == [] then ReadPrefix(s).base else 0
  {
    var n := ReadPrefix(s);
    RunOf(d, after + garbage, n.base);
    TailSkips(s, n.start, d, after, garbage);
    BaseFrom(s, n.start, |d|, n.start + |d| + |after|);
  }

  lemma BaseSize(prefix: string, digits: string, v: nat)
    requires PrefixOf(prefix, digits, v)
    ensures |digits| == if prefix == "0x" then 16 else if prefix == "0b" then 2 else if prefix == "0" then 8 else 10
  {
  }

  /** Spaces after the digits are skipped. */
  lemma {:induction false} TailSkips(s: string, start: nat, d: string, after: string, garbage: string)
    requires start <= |s| && From(s, start) == d + (after + garbage)
    requires AllSpaces(after) && (garbage == [] || !IsSpace(garbage[0]))
    ensures SkipSpaces(s, start + |d|) == start + |d| + |after|
    ensures |s| == start + |d| + |after| + |garbage|
    ensures garbage != [] ==> At(s, start + |d| + |after|) == garbage[0]
  {
    var a := s[..start] + d;
    assert s == a + (after + garbage);
    SkipsPart(a, after, garbage);
    assert garbage != [] ==> s[|a| + |after|] == garbage[0];
  }

  /** With anything else behind it, it does not. */
  lemma {:induction false} GarbageDoesNot(before: string, sign: string, between: string, prefix: string, digits: string,
                                          v: nat, after: string, garbage: string)
    requires WellFormed(before, sign, between, after) && PrefixOf(prefix, digits, v)
    requires garbage != [] && garbage[0] !in Spaces && garbage[0] != '\0'
    requires after != [] || !IsDigit(garbage[0], |digits|)
    ensures BaseOf(Numeral(before, sign, between, prefix, digits, v, after + garbage)) == 0
  {
    var tail := after + garbage;
    NumeralReads(before, sign, between, prefix, digits, v, tail);
    BlankIs(after);
    SpaceIsNoDigit(after, |digits|);
    SpaceIs(garbage[0]);
    assert tail[0] == if after != [] then after[0] else garbage[0];
    EndsAfter(Numeral(before, sign, between, prefix, digits, v, tail), Written(digits, v), after, garbage);
  }

  lemma BaseFrom(s: string, start: nat, run: nat, end: nat)
    requires ReadPrefix(s).start == start && DigitRun(From(s, start), ReadPrefix(s).base) == run
    requires SkipSpaces(s, start + run) == end
    ensures BaseOf(s) == if end < |s| && At(s, end) != '\0' then 0 else ReadPrefix(s).base
  {
  }

  /** An upper-case prefix is not one: `0X10` is no integer, and is parsed as 0. */
  lemma {:induction false} UpperPrefix()
    ensures BaseOf("0X10") == 0 && ParsedPattern("0X10") == 0
  {
    var s := "0X10";
    Skips(s, 0, 0);
    Skips(s, 1, 1);
    assert ReadPrefix(s) == IntegerStrings.Numeral(false, 8, 1);
    assert From(s, 1) == "X10";
    RunIs("X10", 8, 0);
    assert "X10"[..0] == [];
  }
}
