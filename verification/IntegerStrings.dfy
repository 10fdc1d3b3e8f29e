/**
 Turning 64-bit integers into decimal strings and strings back into integers, with the
 value held either in one native word or in two 32-bit halves.
 */
module IntegerStrings {
  import opened Bits
  import opened Numerals
  import opened IntegerCodec

  const W32 := 0x1_0000_0000
  const W64 := 0x1_0000_0000_0000_0000

  // ----- Printing: what is printed -----

  type digit = d: nat | d < 10

  function DigitChar(d: digit): (c: char)
    ensures DigitValue(c) == d
  {
    '0' + d as char
  }

  /** The decimal digits of v without leading zeros; none for zero. */
  function Digits(v: nat): string {
    if v == 0 then [] else Digits(v / 10) + [DigitChar(v % 10)]
  }

  function Decimal(v: nat): string {
    if v == 0 then "0" else Digits(v)
  }

  /** `integer2string`: a 64-bit pattern printed as a signed or an unsigned number. */
  ghost function Printed(v: nat, sign: bool): string
    requires v < W64
  {
    if sign && v >= W64 / 2 then "-" + Decimal(W64 - v) else Decimal(v)
  }

  ghost function Pow10(n: nat): nat {
    if n == 0 then 1 else 10 * Pow10(n - 1)
  }

  lemma DigitCount(v: nat, n: nat)
    requires v < Pow10(n)
    ensures |Digits(v)| <= n
  {
    if v > 0 {
      DigitCount(v / 10, n - 1);
    }
  }

  /** No 64-bit number has more than twenty digits. */
  lemma TwentyDigits(v: nat)
    requires v < W64
    ensures |Digits(v)| <= 20
  {
    assert Pow10(5) == 100_000;
    assert Pow10(10) == 10_000_000_000;
    assert Pow10(15) == 1_000_000_000_000_000;
    assert Pow10(20) == 100_000_000_000_000_000_000;
    DigitCount(v, 20);
  }

  /** Digits pushed on a stack read back from the top. */
  ghost function Unstack(stack: seq<digit>): (s: string)
    ensures |s| == |stack|
  {
    if stack == [] then [] else [DigitChar(stack[|stack| - 1])] + Unstack(stack[..|stack| - 1])
  }

  // ----- Printing: the routines -----

  class DigitStack {
    var slots: array<digit>
    var sp: nat

    constructor ()
      ensures Valid() && fresh(slots) && Contents() == []
    {
      slots := new digit[20];
      sp := 0;
    }

    ghost predicate Valid()
      reads this, slots
    {
      slots.Length == 20 && sp <= 20
    }

    ghost function Contents(): seq<digit>
      requires Valid()
      reads this, slots
    {
      slots[..sp]
    }

    method Push(d: digit)
      requires Valid() && sp < 20
      modifies this`sp, slots
      ensures Valid() && slots == old(slots)
      ensures Contents() == old(Contents()) + [d]
    {
      slots[sp] := d;
      sp := sp + 1;
    }

    /** Write the digits, the last one pushed first. */
    method Flush(out: string) returns (s: string)
      requires Valid()
      modifies this`sp
      ensures Valid() && slots == old(slots)
      ensures s == out + Unstack(old(Contents()))
    {
      s := out;
      while sp > 0
        invariant Valid()
        invariant s + Unstack(Contents()) == out + Unstack(old(Contents()))
      {
        ghost var before := Contents();
        sp := sp - 1;
        assert Contents() == before[..|before| - 1];
        s := s + [DigitChar(slots[sp])];
      }
    }
  }

  /** Digits on the stack are the low digits of v0, and v the rest of it. */
  ghost predicate Partly(v0: nat, v: nat, stack: seq<digit>) {
    && v0 < W64
    && Digits(v0) == Digits(v) + Unstack(stack)
  }

  lemma PartlyRoom(v0: nat, v: nat, stack: seq<digit>)
    requires Partly(v0, v, stack) && v > 0
    ensures |stack| < 20
  {
    TwentyDigits(v0);
  }

  lemma PartlyStep(v0: nat, v: nat, stack: seq<digit>)
    requires Partly(v0, v, stack) && v > 0
    ensures Partly(v0, v / 10, stack + [v % 10])
  {
    UnstackPush(stack, v % 10);
    Associate(Digits(v / 10), [DigitChar(v % 10)], Unstack(stack));
  }

  lemma UnstackPush(stack: seq<digit>, d: digit)
    ensures Unstack(stack + [d]) == [DigitChar(d)] + Unstack(stack)
  {
    var next := stack + [d];
    assert next[..|next| - 1] == stack;
  }

  lemma Associate(a: string, b: string, c: string)
    ensures (a + b) + c == a + (b + c)
  {
  }

  method Integer2StringNative(value: nat, sign: bool) returns (str: string, len: nat)
    requires value < W64
    ensures str == Printed(value, sign) && len == |str|
  {
    var val: nat := value;
    str, len := "", 0;
    if sign && value >= W64 / 2 {
      val := W64 - value;
      str, len := "-", 1;
    }
    var stack := new DigitStack();
    PushLow(stack, val, val);
    str, len := Finish(str, stack, val);
  }

  /** Append the stacked digits, or a zero when there are none. */
  method Finish(str: string, stack: DigitStack, ghost v0: nat) returns (s: string, len: nat)
    requires stack.Valid() && Partly(v0, 0, stack.Contents())
    modifies stack
    ensures s == str + Decimal(v0) && len == |s|
  {
    len := |str| + stack.sp;
    ghost var digits := Unstack(stack.Contents());
    assert Digits(v0) == digits;
    if stack.sp == 0 {
      s := str + "0";
      len := len + 1;
    } else {
      s := stack.Flush(str);
    }
  }

  const CDIV: seq<nat> := [
    0x00000000, 0x19999999, 0x33333333, 0x4CCCCCCC, 0x66666666,
    0x80000000, 0x99999999, 0xB3333333, 0xCCCCCCCC, 0xE6666666
  ]
  const CMOD: seq<nat> := [0, 6, 2, 8, 4, 0, 6, 2, 8, 4]

  /** The tables split multiples of 2^32 by ten. */
  lemma TablesSplit(u: nat)
    requires u < 10
    ensures u * W32 == 10 * CDIV[u] + CMOD[u] && CMOD[u] < 10
  {
  }

  /** One division of two halves by ten, as the tables do it; returns the digit. */
  method DivideByTen(h: nat, l: nat) returns (h': nat, l': nat, d: digit)
    requires h < W32 && l < W32
    ensures h' < W32 && l' < W32
    ensures Whole(h', l') == Whole(h, l) / 10
    ensures d == Whole(h, l) % 10
  {
    var umod, lmod := h % 10, l % 10;
    TablesSplit(umod);
    h', l' := h / 10, l / 10;
    lmod := lmod + CMOD[umod];
    var tval := CDIV[umod];
    if lmod >= 10 {
      lmod, tval := lmod - 10, tval + 1;
    }
    l' := (l' + tval) % W32;
    h' := h' + (if l' < tval then 1 else 0);
    d := lmod;
  }

  /** `if (l-- == 0) h--; h = ~h; l = ~l`. */
  method NegateHalves(h: nat, l: nat) returns (h': nat, l': nat)
    requires h < W32 && l < W32 && (h != 0 || l != 0)
    ensures h' < W32 && l' < W32
    ensures h' * W32 + l' == W64 - (h * W32 + l)
  {
    h', l' := h, (l - 1) % W32;
    if l == 0 {
      h' := h' - 1;
    }
    h', l' := W32 - 1 - h', W32 - 1 - l';
  }

  method Integer2StringSplit(high: nat, low: nat, sign: bool) returns (str: string, len: nat)
    requires high < W32 && low < W32
    ensures high * W32 + low < W64
    ensures str == Printed(high * W32 + low, sign) && len == |str|
  {
    str, len := "", 0;
    var h: nat, l: nat := high, low;
    if sign && high >= W32 / 2 {
      str, len := "-", 1;
      h, l := NegateHalves(high, low);
    }
    str, len := PrintHalves(str, h, l);
  }

  method PrintHalves(prefix: string, h: nat, l: nat) returns (str: string, len: nat)
    requires h < W32 && l < W32
    ensures str == prefix + Decimal(h * W32 + l) && len == |str|
  {
    ghost var v0 := Whole(h, l);
    var stack := new DigitStack();
    NothingPushed(h, l);
    var rest := PushHigh(stack, h, l, v0);
    PushLow(stack, rest, v0);
    str, len := Finish(prefix, stack, v0);
  }

  /** The number that two halves stand for. */
  function Whole(h: nat, l: nat): nat {
    h * W32 + l
  }

  lemma NothingPushed(h: nat, l: nat)
    requires h < W32 && l < W32
    ensures Partly(Whole(h, l), Whole(h, l), [])
  {
  }

  /** Push digits until the high half is used up; returns what is left in the low half. */
  method PushHigh(stack: DigitStack, high: nat, low: nat, ghost v0: nat) returns (l: nat)
    requires high < W32 && low < W32
    requires stack.Valid() && Partly(v0, Whole(high, low), stack.Contents())
    modifies stack, stack.slots
    ensures l < W32 && stack.slots == old(stack.slots)
    ensures stack.Valid() && Partly(v0, l, stack.Contents())
  {
    var h: nat := high;
    l := low;
    while h > 0
      invariant h < W32 && l < W32 && stack.slots == old(stack.slots)
      invariant stack.Valid() && Partly(v0, Whole(h, l), stack.Contents())
      decreases Whole(h, l)
    {
      h, l := PushDigit(stack, h, l, v0);
    }
  }

  method PushDigit(stack: DigitStack, h: nat, l: nat, ghost v0: nat) returns (h': nat, l': nat)
    requires h < W32 && l < W32 && h > 0
    requires stack.Valid() && Partly(v0, Whole(h, l), stack.Contents())
    modifies stack, stack.slots
    ensures h' < W32 && l' < W32 && Whole(h', l') < Whole(h, l) && stack.slots == old(stack.slots)
    ensures stack.Valid() && Partly(v0, Whole(h', l'), stack.Contents())
  {
    ghost var v := Whole(h, l);
    PartlyRoom(v0, v, stack.Contents());
    PartlyStep(v0, v, stack.Contents());
    var d;
    h', l', d := DivideByTen(h, l);
    stack.Push(d);
  }

  method PushLow(stack: DigitStack, low: nat, ghost v0: nat)
    requires stack.Valid() && Partly(v0, low, stack.Contents())
    modifies stack, stack.slots
    ensures stack.slots == old(stack.slots)
    ensures stack.Valid() && Partly(v0, 0, stack.Contents())
  {
    var l: nat := low;
    while l > 0
      invariant stack.slots == old(stack.slots)
      invariant stack.Valid() && Partly(v0, l, stack.Contents())
    {
      PartlyRoom(v0, l, stack.Contents());
      PartlyStep(v0, l, stack.Contents());
      stack.Push(l % 10);
      l := l / 10;
    }
  }

  // ----- Parsing: what a string means -----

  predicate IsSpace(c: char) {
    c == ' ' || '\t' <= c <= '\r'
  }

  /** C strings end in a zero character. */
  function At(s: string, i: nat): char {
    if i < |s| then s[i] else '\0'
  }

  ghost function SkipSpaces(s: string, i: nat): (j: nat)
    ensures j >= i
    decreases |s| - i
  {
    if i < |s| && IsSpace(s[i]) then SkipSpaces(s, i + 1) else i
  }

  /** Sign, base and first digit of a numeral. */
  datatype Numeral = Numeral(negative: bool, base: nat, start: nat)

  ghost function ReadPrefix(s: string): (n: Numeral)
    ensures n.base in {2, 8, 10, 16}
  {
    var i := SkipSpaces(s, 0);
    var signed := At(s, i) == '-' || At(s, i) == '+';
    var j := if signed then SkipSpaces(s, i + 1) else i;
    var negative := At(s, i) == '-';
    if At(s, j) != '0' then Numeral(negative, 10, j)
    else if At(s, j + 1) == 'x' then Numeral(negative, 16, j + 2)
    else if At(s, j + 1) == 'b' then Numeral(negative, 2, j + 2)
    else Numeral(negative, 8, j + 1)
  }

  ghost function From(s: string, i: nat): string {
    if i <= |s| then s[i..] else ""
  }

  /** The number after sign and prefix, however large. */
  ghost function Magnitude(s: string): nat {
    var n := ReadPrefix(s);
    var rest := From(s, n.start);
    Number(rest[..DigitRun(rest, n.base)], n.base)
  }

  /** The 64-bit pattern `string2integer` computes. */
  ghost function ParsedPattern(s: string): nat {
    Wrapped(ReadPrefix(s).negative, Magnitude(s))
  }

  /** The base, if nothing but spaces follows the digits. */
  ghost function BaseOf(s: string): nat {
    var n := ReadPrefix(s);
    var end := n.start + DigitRun(From(s, n.start), n.base);
    if SkipSpaces(s, end) < |s| && At(s, SkipSpaces(s, end)) != '\0' then 0 else n.base
  }

  ghost function Wrapped(negative: bool, m: nat): nat {
    (if negative then 0 - m else m) % W64
  }

  // ----- Parsing: the routines -----

  method SkipSpace(s: string, i: nat) returns (j: nat)
    ensures j == SkipSpaces(s, i)
  {
    j := i;
    while IsSpace(At(s, j))
      invariant i <= j && SkipSpaces(s, i) == SkipSpaces(s, j)
      decreases |s| - j
    {
      j := j + 1;
    }
  }

  /** The part that the two parsers and the recogniser share. */
  method ScanPrefix(s: string) returns (n: Numeral)
    ensures n == ReadPrefix(s)
  {
    var i := SkipSpace(s, 0);
    var negative := At(s, i) == '-';
    if At(s, i) == '-' || At(s, i) == '+' {
      i := SkipSpace(s, i + 1);
    }
    if At(s, i) == '0' {
      if At(s, i + 1) == 'x' {
        n := Numeral(negative, 16, i + 2);
      } else if At(s, i + 1) == 'b' {
        n := Numeral(negative, 2, i + 2);
      } else {
        n := Numeral(negative, 8, i + 1);
      }
    } else {
      n := Numeral(negative, 10, i);
    }
  }

  /** The digits from i on, of which c have been read. */
  ghost predicate Reading(s: string, i: nat, base: nat, c: nat) {
    c <= DigitRun(From(s, i), base)
  }

  lemma MoreDigits(s: string, i: nat, base: nat, c: nat)
    requires Reading(s, i, base, c) && base <= 16
    ensures IsDigit(At(s, i + c), base) <==> Reading(s, i, base, c + 1)
    ensures Reading(s, i, base, c + 1) ==> c < |From(s, i)| && From(s, i)[c] == At(s, i + c)
  {
    var rest := From(s, i);
    var n := DigitRun(rest, base);
    if c < n {
      assert rest[c] == rest[..n][c];
    } else if c < |rest| && IsDigit(At(s, i + c), base) {
      RunReaches(rest, base, c);
    }
  }

  /** The value of the first c digits. */
  ghost function Prefix(s: string, i: nat, base: nat, c: nat): nat
    requires Reading(s, i, base, c)
  {
    Number(From(s, i)[..c], base)
  }

  lemma PrefixStep(s: string, i: nat, base: nat, c: nat)
    requires Reading(s, i, base, c) && Reading(s, i, base, c + 1) && base <= 16
    ensures Prefix(s, i, base, c + 1) == Prefix(s, i, base, c) * base + DigitValue(At(s, i + c))
    ensures DigitValue(At(s, i + c)) < base
  {
    MoreDigits(s, i, base, c);
    NumberStep(From(s, i), base, c);
  }

  /** `(x << k) | d` on an n-bit word appends a digit of k bits. */
  lemma AppendBits(n: nat, x: nat, k: nat, d: nat)
    requires d < Pow2(k) && k <= n
    ensures Or(Shl(n, x, k), d) == (x * Pow2(k) + d) % Pow2(n)
  {
    forall i: nat
      ensures Bit(Or(Shl(n, x, k), d), i) == Bit((x * Pow2(k) + d) % Pow2(n), i)
    {
      BitOr(Shl(n, x, k), d, i);
      BitShl(n, x, k, i);
      BitMod(x * Pow2(k) + d, n, i);
      BitConcat(d, x, k, i);
      if i >= k {
        BitBelow(d, k, i);
      }
    }
    BitExtensional(Or(Shl(n, x, k), d), (x * Pow2(k) + d) % Pow2(n));
  }

  /** Reducing before the next digit makes no difference. */
  lemma ReduceFirst(v: int, base: int, d: int, m: int)
    requires m > 0
    ensures ((v % m) * base + d) % m == (v * base + d) % m
  {
    ModMulLeft(v, base, m);
    ModAddLeft((v % m) * base, d, m);
    ModAddLeft(v * base, d, m);
  }

  /** v is the value of the first c digits, as far as it fits 64 bits. */
  ghost predicate HoldsPrefix(s: string, start: nat, base: nat, c: nat, v: nat) {
    Reading(s, start, base, c) && v == Prefix(s, start, base, c) % W64
  }

  lemma NoDigitsYet(s: string, start: nat, base: nat)
    ensures HoldsPrefix(s, start, base, 0, 0)
  {
  }

  lemma HeldNext(s: string, start: nat, base: nat, c: nat, v: nat)
    requires HoldsPrefix(s, start, base, c, v) && Reading(s, start, base, c + 1) && base <= 16
    ensures DigitValue(At(s, start + c)) < base
    ensures HoldsPrefix(s, start, base, c + 1, (v * base + DigitValue(At(s, start + c))) % W64)
  {
    PrefixStep(s, start, base, c);
    ReduceFirst(Prefix(s, start, base, c), base, DigitValue(At(s, start + c)), W64);
  }

  lemma Words()
    ensures Pow2(32) == W32 && Pow2(64) == W64
    ensures Pow2(1) == 2 && Pow2(2) == 4 && Pow2(3) == 8 && Pow2(4) == 16
  {
    Pow2Values();
  }

  /** `iv = (iv << k) | d`. */
  method AppendToWord(iv: nat, base: nat, k: nat, d: nat) returns (r: nat)
    requires iv < W64 && ShiftBase(base, k) && d < base
    ensures r == (iv * base + d) % W64
  {
    Words();
    AppendBits(64, iv, k, d);
    r := Or(Shl(64, iv, k), d);
  }

  /** The bases whose digits are k bits wide. */
  predicate ShiftBase(base: nat, k: nat) {
    (base == 2 && k == 1) || (base == 8 && k == 3) || (base == 16 && k == 4)
  }

  /** The hexadecimal, octal and binary loops: k bits a digit. */
  method ShiftDigitsNative(s: string, start: nat, base: nat, k: nat) returns (iv: nat)
    requires ShiftBase(base, k)
    ensures iv == Prefix(s, start, base, DigitRun(From(s, start), base)) % W64
  {
    var c := 0;
    iv := 0;
    NoDigitsYet(s, start, base);
    while IsDigit(At(s, start + c), base)
      invariant HoldsPrefix(s, start, base, c, iv)
      decreases |s| - (start + c)
    {
      MoreDigits(s, start, base, c);
      HeldNext(s, start, base, c, iv);
      iv := AppendToWord(iv, base, k, DigitValue(At(s, start + c)));
      c := c + 1;
    }
    MoreDigits(s, start, base, c);
  }

  method DecimalDigitsNative(s: string, start: nat) returns (iv: nat)
    ensures iv == Prefix(s, start, 10, DigitRun(From(s, start), 10)) % W64
  {
    var c := 0;
    iv := 0;
    NoDigitsYet(s, start, 10);
    while IsDigit(At(s, start + c), 10)
      invariant HoldsPrefix(s, start, 10, c, iv)
      decreases |s| - (start + c)
    {
      MoreDigits(s, start, 10, c);
      HeldNext(s, start, 10, c, iv);
      iv := (10 * iv + DigitValue(At(s, start + c))) % W64;
      c := c + 1;
    }
    MoreDigits(s, start, 10, c);
  }

  lemma NegatedRemainder(m: nat, r: nat)
    requires r == m % W64
    ensures (0 - m) % W64 == if r == 0 then 0 else W64 - r
    ensures m % W64 == r
  {
    if r == 0 {
      DivModUnique(0 - m, W64, 0 - m / W64, 0);
    } else {
      DivModUnique(0 - m, W64, -1 - m / W64, W64 - r);
    }
  }

  method String2IntegerNative(s: string) returns (sign: bool, value: nat)
    ensures sign == ReadPrefix(s).negative && value == ParsedPattern(s)
  {
    var n := ScanPrefix(s);
    sign := n.negative;
    match n.base {
      case 16 => value := ShiftDigitsNative(s, n.start, 16, 4);
      case 2 => value := ShiftDigitsNative(s, n.start, 2, 1);
      case 8 => value := ShiftDigitsNative(s, n.start, 8, 3);
      case _ => value := DecimalDigitsNative(s, n.start);
    }
    NegatedRemainder(Magnitude(s), value);
    if sign {
      value := (W64 - value) % W64;
    }
  }

  // ----- Parsing into two halves -----

  /** The halves hold the value of the first c digits. */
  ghost predicate HoldPrefix(s: string, start: nat, base: nat, c: nat, h: nat, l: nat) {
    h < W32 && l < W32 && HoldsPrefix(s, start, base, c, h * W32 + l)
  }

  lemma RunHeld(s: string, start: nat, base: nat, c: nat, h: nat, l: nat)
    requires HoldPrefix(s, start, base, c, h, l) && !Reading(s, start, base, c + 1)
    ensures h < W32 && l < W32 && h * W32 + l == Prefix(s, start, base, DigitRun(From(s, start), base)) % W64
  {
  }

  method NextShiftDigit(s: string, start: nat, base: nat, k: nat, c: nat, h: nat, l: nat)
    returns (h': nat, l': nat)
    requires ShiftBase(base, k) && HoldPrefix(s, start, base, c, h, l) && Reading(s, start, base, c + 1)
    ensures HoldPrefix(s, start, base, c + 1, h', l')
  {
    HeldNext(s, start, base, c, h * W32 + l);
    h', l' := AppendToHalves(h, l, base, k, DigitValue(At(s, start + c)));
  }

  method ShiftDigitsSplit(s: string, start: nat, base: nat, k: nat) returns (h: nat, l: nat)
    requires ShiftBase(base, k)
    ensures h < W32 && l < W32
    ensures h * W32 + l == Prefix(s, start, base, DigitRun(From(s, start), base)) % W64
  {
    var c := 0;
    h, l := 0, 0;
    NoDigitsYet(s, start, base);
    while IsDigit(At(s, start + c), base)
      invariant HoldPrefix(s, start, base, c, h, l)
      decreases |s| - (start + c)
    {
      MoreDigits(s, start, base, c);
      h, l := NextShiftDigit(s, start, base, k, c, h, l);
      c := c + 1;
    }
    MoreDigits(s, start, base, c);
    RunHeld(s, start, base, c, h, l);
  }

  /** `hval = (hval << k) | (lval >> (32 - k)); lval = (lval << k) | d`. */
  method AppendToHalves(h: nat, l: nat, base: nat, k: nat, d: nat) returns (h': nat, l': nat)
    requires h < W32 && l < W32 && ShiftBase(base, k) && d < base
    ensures h' < W32 && l' < W32
    ensures h' * W32 + l' == ((h * W32 + l) * base + d) % W64
  {
    Words();
    h', l' := AppendDigit(32, W32, h, l, k, base, d);
  }

  method AppendDigit(n: nat, w: nat, h: nat, l: nat, k: nat, base: nat, d: nat)
    returns (h': nat, l': nat)
    requires w == Pow2(n) && base == Pow2(k) && 0 < k < n
    requires h < w && l < w && d < base
    ensures h' < w && l' < w && h' * w + l' == ((h * w + l) * base + d) % (w * w)
  {
    AppendedHalves(n, Halves(h, l), k, d);
    JoinedIs(n, h, l);
    Pow2Add(n, n);
    var x := ShiftLeft(n, Halves(h, l), k);
    h', l' := x.h, Or(x.l, d);
    JoinedIs(n, h', l');
  }

  lemma AppendedHalves(n: nat, x: Halves, k: nat, d: nat)
    requires x.Fits(n) && 0 < k < n && d < Pow2(k)
    ensures var y := ShiftLeft(n, x, k);
      && Halves(y.h, Or(y.l, d)).Fits(n)
      && Halves(y.h, Or(y.l, d)).Joined(n) == (x.Joined(n) * Pow2(k) + d) % Pow2(2 * n)
  {
    ShiftedPair(n, x, k, Left);
    AppendBits(2 * n, x.Joined(n), k, d);
    Pow2Monotone(k, n);
    OrIntoLow(n, ShiftLeft(n, x, k), d);
  }

  lemma JoinedIs(n: nat, h: nat, l: nat)
    requires Halves(h, l).Fits(n)
    ensures Halves(h, l).Joined(n) == l + h * Pow2(n)
  {
  }

  lemma OrIntoLow(n: nat, y: Halves, d: nat)
    requires y.Fits(n) && d < Pow2(n)
    ensures Or(y.l, d) < Pow2(n)
    ensures Halves(y.h, Or(y.l, d)).Joined(n) == Or(y.Joined(n), d)
  {
    OrBound(y.l, d, n);
    var z := Halves(y.h, Or(y.l, d));
    forall i: nat
      ensures Bit(z.Joined(n), i) == Bit(Or(y.Joined(n), d), i)
    {
      JoinedBits(n, z, i);
      JoinedBits(n, y, i);
      BitOr(y.Joined(n), d, i);
      if i < n {
        BitOr(y.l, d, i);
      } else {
        BitBelow(d, n, i);
      }
    }
    BitExtensional(z.Joined(n), Or(y.Joined(n), d));
  }

  /** Adding low halves first and carrying when the sum has wrapped. */
  lemma AddHalves(h1: nat, l1: nat, h2: nat, l2: nat)
    requires h1 < W32 && l1 < W32 && h2 < W32 && l2 < W32
    ensures var l := (l1 + l2) % W32;
      var h := (h1 + h2 + (if l < l1 then 1 else 0)) % W32;
      h * W32 + l == (h1 * W32 + l1 + (h2 * W32 + l2)) % W64
  {
  }

  /** `h = (h << k) | (l >> (32 - k)); l <<= k`. */
  method ShiftHalves(h: nat, l: nat, base: nat, k: nat) returns (h': nat, l': nat)
    requires h < W32 && l < W32 && ShiftBase(base, k)
    ensures h' < W32 && l' < W32 && l' == (l * base) % W32
    ensures h' * W32 + l' == ((h * W32 + l) * base) % W64
  {
    Words();
    h', l' := ShiftPair(32, W32, h, l, k, base);
  }

  method ShiftPair(n: nat, w: nat, h: nat, l: nat, k: nat, base: nat) returns (h': nat, l': nat)
    requires w == Pow2(n) && base == Pow2(k) && 0 < k < n
    requires h < w && l < w
    ensures h' < w && l' < w && l' == (l * base) % w
    ensures h' * w + l' == ((h * w + l) * base) % (w * w)
  {
    ShiftedHalves(n, Halves(h, l), k);
    ShlIsMul(n, l, k);
    JoinedIs(n, h, l);
    Pow2Add(n, n);
    var x := ShiftLeft(n, Halves(h, l), k);
    h', l' := x.h, x.l;
    JoinedIs(n, h', l');
  }

  lemma ShiftedHalves(n: nat, x: Halves, k: nat)
    requires x.Fits(n) && 0 < k < n
    ensures var y := ShiftLeft(n, x, k);
      y.l + y.h * Pow2(n) == ((x.l + x.h * Pow2(n)) * Pow2(k)) % Pow2(2 * n)
  {
    ShiftedPair(n, x, k, Left);
    ShlIsMul(2 * n, x.Joined(n), k);
  }

  /** `lval <<= 1; temp = lval + (lval << 2)`: twice and eight times the low half. */
  method FiveTimesTwice(l: nat) returns (temp: nat)
    requires l < W32
    ensures temp == (l * 10) % W32
  {
    var twice := ShiftLow(l, 2, 1);
    temp := ShiftLow(twice, 4, 2);
    TwiceAndEight(l, twice, temp);
    temp := (twice + temp) % W32;
  }

  lemma TwiceAndEight(l: nat, l2: nat, l8: nat)
    requires l2 == (l * 2) % W32 && l8 == (l2 * 4) % W32
    ensures (l2 + l8) % W32 == (l * 10) % W32
  {
    ModMulLeft(l * 2, 4, W32);
    TenTimes(l, l2, l8);
  }

  method ShiftLow(l: nat, base: nat, k: nat) returns (r: nat)
    requires l < W32 && ((base == 2 && k == 1) || (base == 4 && k == 2))
    ensures r < W32 && r == (l * base) % W32
  {
    Words();
    ShlIsMul(32, l, k);
    r := Shl(32, l, k);
  }

  /** Ten times a pair of halves: eight times and twice, added with carry. */
  method TimesTenHalves(h: nat, l: nat) returns (h': nat, l': nat)
    requires h < W32 && l < W32
    ensures h' < W32 && l' < W32
    ensures h' * W32 + l' == ((h * W32 + l) * 10) % W64
  {
    var h8, l8 := ShiftHalves(h, l, 8, 3);
    var h2, l2 := ShiftHalves(h, l, 2, 1);
    var temp := FiveTimesTwice(l);
    EightAndTwo(h * W32 + l, h2, l2, h8, l8);
    TenTimes(l, l2, l8);
    h' := (h8 + h2 + (if temp < l2 then 1 else 0)) % W32;
    l' := temp;
  }

  lemma TenTimes(l: nat, l2: nat, l8: nat)
    requires l2 == (l * 2) % W32 && l8 == (l * 8) % W32
    ensures (l2 + l8) % W32 == (l * 10) % W32
  {
    ModAddLeft(l * 2, l8, W32);
    ModAddLeft(l * 8, l * 2, W32);
  }

  lemma EightAndTwo(v: nat, h2: nat, l2: nat, h8: nat, l8: nat)
    requires h2 < W32 && l2 < W32 && h8 < W32 && l8 < W32
    requires h2 * W32 + l2 == (v * 2) % W64 && h8 * W32 + l8 == (v * 8) % W64
    ensures var l := (l2 + l8) % W32;
      (h8 + h2 + (if l < l2 then 1 else 0)) % W32 * W32 + l == (v * 10) % W64
  {
    AddHalves(h2, l2, h8, l8);
    ModAddLeft(v * 2, (v * 8) % W64, W64);
    ModAddLeft(v * 8, v * 2, W64);
  }

  /** The first loop: while the number is small one word is enough. */
  method SmallDecimals(s: string, start: nat) returns (l: nat, c: nat, done: bool)
    ensures l < W32 && Reading(s, start, 10, c) && l == Prefix(s, start, 10, c)
    ensures done ==> c == DigitRun(From(s, start), 10)
  {
    l, c, done := 0, 0, false;
    while true
      invariant Reading(s, start, 10, c) && l < 429496729
      invariant l == Prefix(s, start, 10, c)
      decreases |s| - (start + c)
    {
      MoreDigits(s, start, 10, c);
      if !IsDigit(At(s, start + c), 10) {
        return l, c, true;
      }
      PrefixStep(s, start, 10, c);
      l := 10 * l + DigitValue(At(s, start + c));
      c := c + 1;
      if l >= 429496729 {
        return;
      }
    }
  }

  method NextDecimalDigit(s: string, start: nat, c: nat, h: nat, l: nat) returns (h': nat, l': nat)
    requires Reading(s, start, 10, c) && Reading(s, start, 10, c + 1)
    requires h < W32 && l < W32 && h * W32 + l == Prefix(s, start, 10, c) % W64
    ensures h' < W32 && l' < W32 && h' * W32 + l' == Prefix(s, start, 10, c + 1) % W64
  {
    PrefixStep(s, start, 10, c);
    ReduceFirst(Prefix(s, start, 10, c), 10, DigitValue(At(s, start + c)), W64);
    h', l' := AppendDecimal(h, l, DigitValue(At(s, start + c)));
  }

  method DecimalDigitsSplit(s: string, start: nat) returns (h: nat, l: nat)
    ensures h < W32 && l < W32
    ensures h * W32 + l == Prefix(s, start, 10, DigitRun(From(s, start), 10)) % W64
  {
    var c, done;
    l, c, done := SmallDecimals(s, start);
    if done {
      h := 0;
    } else {
      h, l := MoreDecimals(s, start, c, l);
    }
  }

  /** The second loop: both halves take part. */
  method MoreDecimals(s: string, start: nat, read: nat, low: nat) returns (h: nat, l: nat)
    requires Reading(s, start, 10, read) && low < W32 && low == Prefix(s, start, 10, read)
    ensures h < W32 && l < W32
    ensures h * W32 + l == Prefix(s, start, 10, DigitRun(From(s, start), 10)) % W64
  {
    var c := read;
    h, l := 0, low;
    while IsDigit(At(s, start + c), 10)
      invariant HoldPrefix(s, start, 10, c, h, l)
      decreases |s| - (start + c)
    {
      MoreDigits(s, start, 10, c);
      h, l := NextDecimalDigit(s, start, c, h, l);
      c := c + 1;
    }
    MoreDigits(s, start, 10, c);
  }

  method AppendDecimal(h: nat, l: nat, d: nat) returns (h': nat, l': nat)
    requires h < W32 && l < W32 && d < 10
    ensures h' < W32 && l' < W32
    ensures h' * W32 + l' == ((h * W32 + l) * 10 + d) % W64
  {
    var temp;
    h', temp := TimesTenHalves(h, l);
    AddHalves(h', temp, 0, d);
    l' := (temp + d) % W32;
    if l' < temp {
      h' := (h' + 1) % W32;
    }
    ModAddLeft((h * W32 + l) * 10, d, W64);
  }

  method String2IntegerSplit(s: string) returns (sign: bool, h: nat, l: nat)
    ensures sign == ReadPrefix(s).negative
    ensures h < W32 && l < W32 && h * W32 + l == ParsedPattern(s)
  {
    var n := ScanPrefix(s);
    sign := n.negative;
    match n.base {
      case 16 => h, l := ShiftDigitsSplit(s, n.start, 16, 4);
      case 2 => h, l := ShiftDigitsSplit(s, n.start, 2, 1);
      case 8 => h, l := ShiftDigitsSplit(s, n.start, 8, 3);
      case _ => h, l := DecimalDigitsSplit(s, n.start);
    }
    NegatedRemainder(Magnitude(s), h * W32 + l);
    if sign && (h != 0 || l != 0) {
      h, l := NegateHalves(h, l);
    }
  }

  /** The base of the numeral a string holds, or 0 when something else follows it. */
  method StringIsInteger(s: string) returns (base: nat)
    ensures base == BaseOf(s)
  {
    var n := ScanPrefix(s);
    var c := 0;
    while IsDigit(At(s, n.start + c), n.base)
      invariant Reading(s, n.start, n.base, c)
      decreases |s| - (n.start + c)
    {
      MoreDigits(s, n.start, n.base, c);
      c := c + 1;
    }
    MoreDigits(s, n.start, n.base, c);
    var end := SkipSpace(s, n.start + c);
    base := if At(s, end) != '\0' then 0 else n.base;
  }

  // ----- The round trip -----

  lemma DigitsRead(v: nat)
    ensures AllDigits(Digits(v), 10) && Number(Digits(v), 10) == v
    ensures v > 0 ==> Digits(v) != [] && Digits(v)[0] != '0'
  {
    if v > 0 {
      DigitsRead(v / 10);
      var d := Digits(v / 10) + [DigitChar(v % 10)];
      assert d[..|d| - 1] == Digits(v / 10);
      if v < 10 {
        assert Digits(v / 10) == [];
        assert v % 10 == v;
      }
    }
  }

  lemma DigitIsNoSpace(c: char)
    requires IsDigit(c, 10)
    ensures !IsSpace(c) && c != '-' && c != '+' && c != '\0'
  {
  }

  /** How a printed number is read: its sign, its base and its digits. */
  lemma PrintedPrefix(v: nat, sign: bool)
    requires v < W64
    ensures var negative := sign && v >= W64 / 2;
      ReadPrefix(Printed(v, sign))
        == Numeral(negative, if v == 0 then 8 else 10, if negative || v == 0 then 1 else 0)
  {
    var s, negative := Printed(v, sign), sign && v >= W64 / 2;
    var m := if negative then W64 - v else v;
    DigitsRead(m);
    if v > 0 {
      var first := if negative then 1 else 0;
      assert s[first] == Digits(m)[0];
      assert IsDigit(Digits(m)[0], 10);
      DigitIsNoSpace(s[first]);
      assert At(s, first) != '0';
    }
  }

  lemma PrintedDigits(v: nat, sign: bool)
    requires v < W64
    ensures var s := Printed(v, sign);
      var n := ReadPrefix(s);
      n.start + DigitRun(From(s, n.start), n.base) == |s|
    ensures Magnitude(Printed(v, sign)) == if sign && v >= W64 / 2 then W64 - v else v
  {
    var s, negative := Printed(v, sign), sign && v >= W64 / 2;
    var m := if negative then W64 - v else v;
    PrintedPrefix(v, sign);
    DigitsRead(m);
    if v > 0 {
      assert From(s, ReadPrefix(s).start) == Digits(m);
      assert Digits(m)[..|Digits(m)|] == Digits(m);
      RunIs(Digits(m), 10, |Digits(m)|);
    } else {
      assert From(s, 1) == [];
    }
  }

  /** Printing any 64-bit pattern, signed or unsigned, and parsing the string gives the pattern back. */
  lemma PrintThenParse(v: nat, sign: bool)
    requires v < W64
    ensures ParsedPattern(Printed(v, sign)) == v
  {
    var s, negative := Printed(v, sign), sign && v >= W64 / 2;
    assert ReadPrefix(s).negative == negative by { PrintedPrefix(v, sign); }
    assert Magnitude(s) == if negative then W64 - v else v by { PrintedDigits(v, sign); }
    WrappedBack(negative, v);
  }

  lemma WrappedBack(negative: bool, v: nat)
    requires v < W64 && (negative ==> v > 0)
    ensures Wrapped(negative, if negative then W64 - v else v) == v
  {
    if negative {
      NegatedRemainder(W64 - v, W64 - v);
    }
  }

  /** Every printed number is recognised: as decimal, except that a lone zero reads as octal. */
  lemma PrintedIsInteger(v: nat, sign: bool)
    requires v < W64
    ensures var s := Printed(v, sign);
      var n := ReadPrefix(s);
      SkipSpaces(s, n.start + DigitRun(From(s, n.start), n.base)) == |s|
      && n.base == if v == 0 then 8 else 10
  {
    PrintedPrefix(v, sign);
    PrintedDigits(v, sign);
  }
}
