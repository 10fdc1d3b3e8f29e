/**
 Member expressions as people write them: with spaces between their parts, and with or without the first dot.
 */
module WalkerSpaces {
  import opened Numerals
  import opened IntegerStrings
  import opened Walker
  import opened MemberLookup
  import opened MemberRoundTrip
  import opened IntegerPrefixes

  /** Spaces before a token, after its first character, and before its last. */
  datatype Gaps = Gaps(before: string, inside: string, closing: string)

  /** A plus sign is followed by its digits at once. */
  ghost function Spaced(t: Token, g: Gaps): string {
    match t
    case Id(name) => g.before + ("." + (g.inside + name))
    case Ix(n) => g.before + ("[" + (g.inside + (PrintInt(n) + (g.closing + "]"))))
    case Off(n) => g.before + ("+" + (Decimal(n) + g.closing))
  }

  ghost function SpacedAll(ts: seq<Token>, gs: seq<Gaps>, end: string): string
    requires |gs| == |ts|
  {
    if ts == [] then end else Spaced(ts[0], gs[0]) + SpacedAll(ts[1..], gs[1..], end)
  }

  ghost predicate BlankGaps(g: Gaps) {
    Blank(g.before) && Blank(g.inside) && Blank(g.closing)
  }

  lemma {:induction false} SkipBlank(sp: string, u: string)
    requires Blank(sp)
    ensures Skip(sp + u) == Skip(u)
    decreases |sp|
  {
    if sp == [] {
      assert sp + u == u;
    } else {
      SpaceIs(sp[0]);
      assert (sp + u)[1..] == sp[1..] + u;
      SkipBlank(sp[1..], u);
    }
  }

  lemma {:induction false} MemberSpaced(name: string, inside: string, rest: string, hasDot: bool)
    requires IsName(name) && Blank(inside) && Follows(rest)
    ensures ReadMember(inside + (name + rest), hasDot) == (CompoundMember(name, hasDot), rest)
  {
    var u := name + rest;
    SkipBlank(inside, u);
    NameReads(name, rest);
    assert u[0] == name[0] && u[..|name|] == name && u[|name|..] == rest;
  }

  lemma {:induction false} SpacedMember(name: string, g: Gaps, rest: string, startup: bool)
    requires IsName(name) && BlankGaps(g) && Follows(rest)
    ensures ReadToken(Spaced(Id(name), g) + rest, startup) == (CompoundMember(name, true), rest)
  {
    var u := "." + (g.inside + (name + rest));
    assert Spaced(Id(name), g) + rest == g.before + u;
    SkipBlank(g.before, u);
    MemberSpaced(name, g.inside, rest, true);
    assert u[1..] == g.inside + (name + rest);
  }

  lemma BlankFollows(sp: string, c: char, rest: string)
    requires Blank(sp) && !InName(c)
    ensures Follows(sp + ([c] + rest))
  {
    if sp != [] {
      SpaceIs(sp[0]);
    }
  }

  lemma {:induction false} BracketSpaced(n: int, closing: string, rest: string)
    requires Blank(closing)
    ensures ReadBracket(closing + ("]" + rest), n) == (ArrayIndex(n), rest)
  {
    SkipBlank(closing, "]" + rest);
    assert ("]" + rest)[1..] == rest;
  }

  lemma {:induction false} IndexSpaced(n: int, inside: string, tail: string)
    requires Blank(inside) && Follows(tail)
    ensures ReadIndex(inside + (PrintInt(n) + tail)) == ReadBracket(tail, n)
  {
    SkipBlank(inside, PrintInt(n) + tail);
    AtoiReads(n, tail);
  }

  lemma {:induction false} SpacedIndex(n: int, g: Gaps, rest: string, startup: bool)
    requires BlankGaps(g)
    ensures ReadToken(Spaced(Ix(n), g) + rest, startup) == (ArrayIndex(n), rest)
  {
    var tail := g.closing + ("]" + rest);
    var u := "[" + (g.inside + (PrintInt(n) + tail));
    assert Spaced(Ix(n), g) + rest == g.before + u;
    SkipBlank(g.before, u);
    assert u[1..] == g.inside + (PrintInt(n) + tail);
    BlankFollows(g.closing, ']', rest);
    IndexSpaced(n, g.inside, tail);
    BracketSpaced(n, g.closing, rest);
  }

  lemma {:induction false} NumberAlone(n: nat, end: string)
    requires Blank(end)
    ensures var u := Decimal(n) + end;
      OnlyNumber(u) && Atoi(u) == n && Skip(u[DigitRun(u, 10)..]) == []
  {
    if end != [] {
      SpaceIs(end[0]);
    }
    DecimalReads(n, end);
    Walker.NumeralReads(Decimal(n) + end, false, Decimal(n), end);
    assert end + [] == end;
    SkipBlank(end, []);
  }

  lemma {:induction false} PlusReads(u: string, number: string, startup: bool)
    requires Skip(u) == "+" + number && OnlyNumber(number)
    ensures ReadToken(u, startup) == (OffsetBy(Atoi(number)), Skip(number[DigitRun(number, 10)..]))
  {
    assert ("+" + number)[1..] == number;
  }

  lemma {:induction false} SpacedOffset(n: nat, g: Gaps, startup: bool)
    requires BlankGaps(g)
    ensures ReadToken(Spaced(Off(n), g), startup) == (OffsetBy(n), [])
  {
    var number := Decimal(n) + g.closing;
    SkipBlank(g.before, "+" + number);
    NumberAlone(n, g.closing);
    PlusReads(g.before + ("+" + number), number, startup);
  }

  lemma {:induction false} BlankEnd(end: string, startup: bool)
    requires Blank(end)
    ensures ReadToken(end, startup) == (End, [])
  {
    assert end + [] == end;
    SkipBlank(end, []);
  }

  /** However the tokens are spaced, the walker yields them. */
  lemma {:induction false} WalkSpaced(ts: seq<Token>, gs: seq<Gaps>, end: string, startup: bool)
    requires Printable(ts) && |gs| == |ts| && (forall g | g in gs :: BlankGaps(g)) && Blank(end)
    requires ts != [] && ts[|ts| - 1].Off? ==> end == []
    ensures Yields(SpacedAll(ts, gs, end), startup, ts)
    decreases |ts|
  {
    if ts == [] {
      BlankEnd(end, startup);
    } else {
      var rest := SpacedAll(ts[1..], gs[1..], end);
      assert gs[0] in gs;
      match ts[0] {
        case Id(name) =>
          RestFollows(ts[1..], gs[1..], end);
          SpacedMember(name, gs[0], rest, startup);
        case Ix(n) => SpacedIndex(n, gs[0], rest, startup);
        case Off(n) =>
          assert Spaced(ts[0], gs[0]) + [] == Spaced(ts[0], gs[0]);
          SpacedOffset(n, gs[0], startup);
      }
      WalkSpaced(ts[1..], gs[1..], end, startup && ts[0].Off?);
    }
  }

  lemma {:induction false} RestFollows(ts: seq<Token>, gs: seq<Gaps>, end: string)
    requires |gs| == |ts| && (forall g | g in gs :: BlankGaps(g)) && Blank(end)
    ensures Follows(SpacedAll(ts, gs, end))
  {
    if ts == [] {
      if end != [] {
        SpaceIs(end[0]);
      }
    } else {
      assert gs[0] in gs;
      if gs[0].before != [] {
        SpaceIs(gs[0].before[0]);
      }
    }
  }

  /** A name without a dot, at the start only: refused, or read as if it had one. */
  lemma {:induction false} Dotless(flags: Flags, p: Place, before: string, name: string, rest: string)
    requires IsName(name) && Blank(before) && Follows(rest)
    ensures Lookup(flags, p, before + (name + rest), true) ==
      if flags.acceptDotless then Lookup(flags, p, "." + (name + rest), true)
      else Failed(Failure.Dotless(name[0]))
  {
    var u := name + rest;
    SkipBlank(before, u);
    assert [] + u == u && ("." + u)[1..] == u;
    MemberSpaced(name, [], rest, false);
    MemberSpaced(name, [], rest, true);
    assert u[0] == name[0];
    assert StartsName(Head(u)) && !IsSpace(Head(u)) && Skip(before + u) == u && [] + (name + rest) == u;
    assert ReadMember(u, false) == (CompoundMember(name, false), rest);
    assert Head(u) != '\0' && Head(u) != '+' && Head(u) != '.' && Head(u) != '[';
    assert Head(Skip(before + u)) == Head(u);
    assert ReadToken(before + u, true).0 == ReadMember(u, false).0;
    assert ReadToken(before + u, true) == ReadMember(u, false);
    assert ReadToken("." + u, true) == (CompoundMember(name, true), rest);
  }
}
