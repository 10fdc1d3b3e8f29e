/**
 The parser for member expressions such as `.a[2].b+1`: a small state machine that hands out one
 token a call. What a call does is a function of the rest of the expression; walking any printed
 list of tokens gives the list back.
 */
module Walker {
  import opened Numerals
  import opened IntegerStrings

  datatype Walk =
    | CompoundMember(name: string, hasDot: bool)
    | ArrayIndex(index: int)
    | OffsetBy(offset: int)
    | InvalidMemberStart
    | InvalidIndex
    | InvalidChar(c: char)
    | IndexNotTerminated
    | Incomplete
    | Terminated
    | End

  predicate IsToken(w: Walk) {
    w.CompoundMember? || w.ArrayIndex? || w.OffsetBy?
  }

  // ----- What one call reads -----

  /** The next character; strings end in a zero character. */
  function Head(u: string): char {
    if u == [] then '\0' else u[0]
  }

  function Skip(u: string): (r: string)
    ensures |r| <= |u| && !IsSpace(Head(r))
  {
    if u != [] && IsSpace(u[0]) then Skip(u[1..]) else u
  }

  predicate IsAlpha(c: char) {
    'a' <= c <= 'z' || 'A' <= c <= 'Z'
  }

  predicate StartsName(c: char) {
    IsAlpha(c) || c == '_'
  }

  predicate InName(c: char) {
    StartsName(c) || IsDigit(c, 10)
  }

  function NameRun(u: string): (n: nat)
    ensures n <= |u|
  {
    if u != [] && InName(u[0]) then 1 + NameRun(u[1..]) else 0
  }

  predicate IsSign(c: char) {
    c == '-' || c == '+'
  }

  function Unsigned(u: string): string {
    if IsSign(Head(u)) then u[1..] else u
  }

  /** The C library's `atoi`. */
  function Atoi(u: string): int {
    var v := Skip(u);
    var w := Unsigned(v);
    var n := Number(w[..DigitRun(w, 10)], 10);
    if Head(v) == '-' then 0 - n else n
  }

  /** Token and rest of the expression after a dot, or at a name that starts the expression. */
  ghost function ReadMember(u: string, hasDot: bool): (Walk, string) {
    var v := Skip(u);
    if Head(v) == '\0' then (Incomplete, v)
    else if !StartsName(Head(v)) then (InvalidMemberStart, v)
    else (CompoundMember(v[..NameRun(v)], hasDot), v[NameRun(v)..])
  }

  ghost function ReadBracket(u: string, index: int): (Walk, string) {
    var v := Skip(u);
    if Head(v) == '\0' then (Incomplete, v)
    else if Head(v) != ']' then (IndexNotTerminated, v)
    else (ArrayIndex(index), v[1..])
  }

  /** Token and rest after an opening bracket. */
  ghost function ReadIndex(u: string): (Walk, string) {
    var v := Skip(u);
    var w := Unsigned(v);
    if Head(v) == '\0' then (Incomplete, v)
    else if DigitRun(w, 10) == 0 then (InvalidIndex, w)
    else ReadBracket(w[DigitRun(w, 10)..], Atoi(v))
  }

  /** Digits and then spaces up to the end of the string: only then is a plus sign an offset. */
  ghost predicate OnlyNumber(u: string) {
    u != [] && Head(u) != '\0' && Head(Skip(u[DigitRun(u, 10)..])) == '\0'
  }

  /** Token and rest at the start of a call. */
  ghost function ReadToken(u: string, startup: bool): (Walk, string) {
    var v := Skip(u);
    if Head(v) == '\0' then (End, v)
    else if Head(v) == '+' && OnlyNumber(v[1..]) then
      (OffsetBy(Atoi(v[1..])), Skip(v[1..][DigitRun(v[1..], 10)..]))
    else if Head(v) == '.' then ReadMember(v[1..], true)
    else if Head(v) == '[' then ReadIndex(v[1..])
    else if startup && StartsName(Head(v)) then ReadMember(v, false)
    else (InvalidChar(Head(v)), v)
  }

  // ----- The state machine -----

  datatype State = Member | Index | FinishIndex | Search | Term

  class MemberExprWalker {
    const expr: string
    var state: State
    var p: nat
    var startup: bool
    var hasDot: bool

    constructor (expr: string)
      ensures this.expr == expr && Valid() && state == Search && startup && Rest() == expr
    {
      this.expr := expr;
      state, p, startup, hasDot := Search, 0, true, false;
    }

    /** Between calls the state is one of two. */
    ghost predicate Valid()
      reads this
    {
      p <= |expr| && (state == Search || state == Term)
    }

    ghost function Rest(): string
      requires Valid()
      reads this
    {
      expr[p..]
    }

    function Char(c: nat): char {
      if c < |expr| then expr[c] else '\0'
    }

    method SkipSpaces(start: nat) returns (c: nat)
      requires start <= |expr|
      ensures start <= c <= |expr| && expr[c..] == Skip(expr[start..])
    {
      c := start;
      while IsSpace(Char(c))
        invariant start <= c <= |expr| && Skip(expr[c..]) == Skip(expr[start..])
        decreases |expr| - c
      {
        assert expr[c..][1..] == expr[c + 1..];
        c := c + 1;
      }
    }

    method SkipDigits(start: nat) returns (c: nat)
      requires start <= |expr|
      ensures start <= c <= |expr| && c - start == DigitRun(expr[start..], 10)
    {
      c := start;
      while IsDigit(Char(c), 10)
        invariant start <= c <= |expr| && DigitRun(expr[start..], 10) == c - start + DigitRun(expr[c..], 10)
        decreases |expr| - c
      {
        assert expr[c..][1..] == expr[c + 1..];
        c := c + 1;
      }
    }

    method SkipName(start: nat) returns (c: nat)
      requires start <= |expr|
      ensures start <= c <= |expr| && c - start == NameRun(expr[start..])
    {
      c := start;
      while InName(Char(c))
        invariant start <= c <= |expr| && NameRun(expr[start..]) == c - start + NameRun(expr[c..])
        decreases |expr| - c
      {
        assert expr[c..][1..] == expr[c + 1..];
        c := c + 1;
      }
    }

    /** What a call still has to read, seen from inside its loop. */
    ghost function Ahead(c: nat, ixstr: nat): (Walk, string)
      requires c <= |expr| && ixstr <= |expr|
      reads this
    {
      match state
      case Search => ReadToken(expr[c..], startup)
      case Member => ReadMember(expr[c..], hasDot)
      case Index => ReadIndex(expr[c..])
      case FinishIndex => ReadBracket(expr[c..], Atoi(expr[ixstr..]))
      case Term => (Terminated, expr[c..])
    }

    lemma AheadSkips(c: nat, c': nat, ixstr: nat)
      requires c <= |expr| && c' <= |expr| && ixstr <= |expr| && state != Term
      requires expr[c'..] == Skip(expr[c..])
      ensures Ahead(c, ixstr) == Ahead(c', ixstr)
    {
    }

    /** `case ST_MEMBER`: a name, or nothing that starts one. */
    method WalkMember(start: nat) returns (w: Walk, c: nat)
      requires start < |expr| && expr[start] != '\0' && !IsSpace(expr[start])
      ensures start <= c <= |expr| && (w, expr[c..]) == ReadMember(expr[start..], hasDot)
      ensures w.CompoundMember? ==> start < c
      ensures w.CompoundMember? || w == InvalidMemberStart
    {
      c := start;
      if !StartsName(Char(c)) {
        w := InvalidMemberStart;
      } else {
        c := SkipName(c);
        assert expr[start..][..c - start] == expr[start..c];
        w := CompoundMember(expr[start..c], hasDot);
      }
    }

    method SkipSign(start: nat) returns (c: nat)
      requires start < |expr|
      ensures start <= c <= |expr| && expr[c..] == Unsigned(expr[start..])
    {
      c := start;
      if Char(c) == '-' || Char(c) == '+' {
        c := c + 1;
      }
    }

    /** `case ST_INDEX`: sign and digits; an error, or a move to the next state. */
    method WalkIndex(start: nat) returns (ok: bool, c: nat)
      requires start < |expr| && expr[start] != '\0' && !IsSpace(expr[start])
      ensures start <= c <= |expr| && (ok ==> start < c)
      ensures ReadIndex(expr[start..])
          == if ok then ReadBracket(expr[c..], Atoi(expr[start..])) else (InvalidIndex, expr[c..])
    {
      c := SkipSign(start);
      assert Skip(expr[start..]) == expr[start..];
      ok := IsDigit(Char(c), 10);
      if ok {
        c := SkipDigits(c);
      }
    }

    /** In `case ST_SEARCH`: is this plus sign an offset, and where does the expression end? */
    method WalkOffset(start: nat) returns (ok: bool, c: nat)
      requires start < |expr|
      ensures start < c <= |expr|
      ensures ok == OnlyNumber(expr[start + 1..])
      ensures ok ==> expr[c..] == Skip(expr[start + 1..][DigitRun(expr[start + 1..], 10)..])
    {
      c := start + 1;
      ok := false;
      if Char(c) != '\0' {
        c := SkipDigits(c);
        assert expr[start + 1..][c - (start + 1)..] == expr[c..];
        c := SkipSpaces(c);
        ok := Char(c) == '\0';
      }
    }

    /** `case ST_SEARCH`: an offset, an error, or a move to the next state. */
    method WalkSearch(start: nat) returns (done: bool, w: Walk, c: nat)
      requires start < |expr| && expr[start] != '\0' && !IsSpace(expr[start]) && state == Search
      modifies this
      ensures p == old(p) && start <= c <= |expr|
      ensures if done then state == Search && (w, expr[c..]) == ReadToken(expr[start..], old(startup))
                           && startup == old(startup) && !w.CompoundMember? && !w.ArrayIndex?
              else (state == Member || state == Index) && !startup
                   && Ahead(c, 0) == ReadToken(expr[start..], old(startup))
      ensures done && w.OffsetBy? ==> start < c
    {
      c := start;
      w := End;
      done := false;
      if Char(c) == '+' {
        var end;
        done, end := WalkOffset(c);
        if done {
          return true, OffsetBy(Atoi(expr[c + 1..])), end;
        }
      }
      if Char(c) == '.' || Char(c) == '[' {
        state := if Char(c) == '.' then Member else Index;
        hasDot := if state == Member then true else hasDot;
        c := c + 1;
      } else if startup && StartsName(Char(c)) {
        state, hasDot := Member, false;
      } else {
        return true, InvalidChar(Char(c)), c;
      }
      startup := false;
    }

    /** The state a call that ends with w leaves behind. */
    ghost predicate Leaves(w: Walk, rest: string, from: nat)
      reads this
    {
      if IsToken(w) then state == Search && from < p <= |expr| && expr[p..] == rest
      else state == Term && p == from
    }

    /** One round of the loop, at a character that is no space. */
    method Round(start: nat, ix: nat) returns (done: bool, w: Walk, c: nat, ixstr: nat)
      requires p <= start < |expr| && expr[start] != '\0' && !IsSpace(expr[start])
      requires ix <= |expr| && state != Term && (state == FinishIndex ==> p < start)
      requires state != Search ==> !startup
      modifies this
      ensures done ==> Leaves(w, old(Ahead(start, ix)).1, old(p)) && w == old(Ahead(start, ix)).0
      ensures done && IsToken(w) ==> startup == (old(startup) && w.OffsetBy?)
      ensures done && w.OffsetBy? ==> old(state) == Search
      ensures !done ==>
        && p == old(p) <= c <= |expr| && ixstr <= |expr| && state != Term && state != Search && !startup
        && (state == FinishIndex ==> p < c)
        && Ahead(c, ixstr) == old(Ahead(start, ix))
        && (start < c || (start == c && old(state) == Search))
    {
      done, w, c, ixstr := true, Incomplete, start, ix;
      match state {
        case Member =>
          w, c := WalkMember(c);
          Finish(w, c);
        case Index =>
          ixstr := c;
          done, c := WalkIndex(c);
          if done {
            done, state := false, FinishIndex;
          } else {
            done, w, state := true, InvalidIndex, Term;
          }
        case FinishIndex =>
          w := if Char(c) == ']' then ArrayIndex(Atoi(expr[ixstr..])) else IndexNotTerminated;
          Finish(w, c + 1);
        case Search =>
          done, w, c := WalkSearch(c);
          if done {
            Finish(w, c);
          }
      }
    }

    /** The labels `found` and `error`. */
    method Finish(w: Walk, c: nat)
      requires IsToken(w) ==> p < c <= |expr|
      modifies this`p, this`state
      ensures if IsToken(w) then state == Search && p == c else state == Term && p == old(p)
    {
      if IsToken(w) {
        p, state := c, Search;
      } else {
        state := Term;
      }
    }

    /** One call: the token that comes next, and the state to go on from. */
    method Walk() returns (w: Walk)
      requires Valid()
      modifies this
      ensures Valid()
      ensures old(state) == Term ==> w == Terminated && state == Term
      ensures old(state) == Search ==>
        var (token, rest) := ReadToken(old(Rest()), old(startup));
        w == token && Leaves(w, rest, old(p)) && (IsToken(w) ==> startup == (old(startup) && w.OffsetBy?))
    {
      if state == Term {
        return Terminated;
      }
      var c: nat, ixstr: nat := p, 0;
      ghost var goal := ReadToken(Rest(), startup);
      while true
        invariant p == old(p) <= c <= |expr| && ixstr <= |expr| && state != Term
        invariant Ahead(c, ixstr) == goal
        invariant if state == Search then startup == old(startup) else !startup
        invariant state == FinishIndex ==> p < c
        decreases |expr| - c, if state == Search then 1 else 0
      {
        ghost var before := c;
        c := SkipSpaces(c);
        AheadSkips(before, c, ixstr);
        if Char(c) == '\0' {
          w := if state == Search then End else Incomplete;
          state := Term;
          return;
        }
        var done;
        done, w, c, ixstr := Round(c, ixstr);
        if done {
          return;
        }
      }
    }
  }

  // ----- Printed expressions -----

  datatype Token = Id(name: string) | Ix(index: int) | Off(offset: nat)

  function PrintInt(n: int): string {
    if n < 0 then "-" + Decimal(0 - n) else Decimal(n)
  }

  function Print(t: Token): string {
    match t
    case Id(name) => "." + name
    case Ix(n) => "[" + PrintInt(n) + "]"
    case Off(n) => "+" + Decimal(n)
  }

  function PrintAll(ts: seq<Token>): string {
    if ts == [] then "" else Print(ts[0]) + PrintAll(ts[1..])
  }

  lemma {:induction false} PrintAppend(ts: seq<Token>, us: seq<Token>)
    ensures PrintAll(ts + us) == PrintAll(ts) + PrintAll(us)
  {
    if ts == [] {
      assert ts + us == us;
    } else {
      assert (ts + us)[1..] == ts[1..] + us;
      PrintAppend(ts[1..], us);
    }
  }

  predicate IsName(s: string) {
    s != [] && StartsName(s[0]) && forall c | c in s :: InName(c)
  }

  /** Names are C identifiers, and an offset can only come last. */
  ghost predicate Printable(ts: seq<Token>) {
    forall i | 0 <= i < |ts| ::
      && (ts[i].Id? ==> IsName(ts[i].name))
      && (ts[i].Off? ==> i == |ts| - 1)
  }

  function WalkOf(t: Token): Walk {
    match t
    case Id(name) => CompoundMember(name, true)
    case Ix(n) => ArrayIndex(n)
    case Off(n) => OffsetBy(n)
  }

  /** Calls on u return the tokens, one each, and then the end. */
  ghost predicate Yields(u: string, startup: bool, ts: seq<Token>)
    decreases |ts|
  {
    var (w, rest) := ReadToken(u, startup);
    if ts == [] then w == End
    else w == WalkOf(ts[0]) && Yields(rest, startup && ts[0].Off?, ts[1..])
  }

  /** What can follow a printed token: nothing that goes on with a name or a number. */
  ghost predicate Follows(rest: string) {
    rest != [] ==> !InName(rest[0])
  }

  lemma {:induction false} NameReads(name: string, rest: string)
    requires (forall c | c in name :: InName(c)) && Follows(rest)
    ensures NameRun(name + rest) == |name|
  {
    if name == [] {
      assert name + rest == rest;
    } else {
      assert (name + rest)[1..] == name[1..] + rest;
      NameReads(name[1..], rest);
    }
  }

  lemma {:induction false} DecimalReads(n: nat, rest: string)
    requires Follows(rest)
    ensures var d := Decimal(n);
      && d != [] && IsDigit(d[0], 10) && DigitRun(d + rest, 10) == |d|
      && (d + rest)[|d|..] == rest && (d + rest)[..|d|] == d && Number(d, 10) == n
  {
    var d := Decimal(n);
    DigitsRead(n);
    assert AllDigits(d, 10) && Number(d, 10) == n by {
      if n == 0 {
        assert d[..0] == [];
      }
    }
    assert (d + rest)[..|d|] == d && (d + rest)[|d|..] == rest;
    if rest != [] {
      assert (d + rest)[|d|] == rest[0];
    }
    RunIs(d + rest, 10, |d|);
  }

  /** How a number is read, given its digits: they end where rest starts. */
  lemma {:induction false} NumeralReads(u: string, negative: bool, d: string, rest: string)
    requires d != [] && IsDigit(d[0], 10) && DigitRun(d + rest, 10) == |d|
    requires (d + rest)[..|d|] == d && (d + rest)[|d|..] == rest
    requires u == if negative then "-" + (d + rest) else d + rest
    ensures Skip(u) == u && Head(u) != '\0' && Unsigned(u) == d + rest
    ensures Atoi(u) == if negative then 0 - Number(d, 10) else Number(d, 10)
  {
    DigitIsNoSpace(d[0]);
    assert Head(u) == if negative then '-' else d[0];
    assert Unsigned(u) == d + rest;
  }

  lemma {:induction false} PrintIntIs(n: int, rest: string)
    ensures PrintInt(n) + rest == if n < 0 then "-" + (Decimal(0 - n) + rest) else Decimal(n) + rest
  {
  }

  lemma {:induction false} AtoiReads(n: int, rest: string)
    requires Follows(rest)
    ensures var u := PrintInt(n) + rest;
      && Skip(u) == u && Atoi(u) == n && Head(u) != '\0'
      && DigitRun(Unsigned(u), 10) > 0 && Unsigned(u)[DigitRun(Unsigned(u), 10)..] == rest
  {
    var m: nat := if n < 0 then 0 - n else n;
    DecimalReads(m, rest);
    var d := Decimal(m);
    var u := PrintInt(n) + rest;
    PrintIntIs(n, rest);
    NumeralReads(u, n < 0, d, rest);
  }

  lemma {:induction false} ReadId(name: string, rest: string, startup: bool)
    requires Follows(rest) && IsName(name)
    ensures ReadToken("." + name + rest, startup) == (CompoundMember(name, true), rest)
  {
    var u := "." + name + rest;
    assert u[1..] == name + rest && (name + rest)[0] == name[0];
    NameReads(name, rest);
    assert (name + rest)[..|name|] == name && (name + rest)[|name|..] == rest;
    assert ReadMember(name + rest, true) == (CompoundMember(name, true), rest);
  }

  lemma {:induction false} ReadIx(n: int, rest: string, startup: bool)
    ensures ReadToken("[" + PrintInt(n) + "]" + rest, startup) == (ArrayIndex(n), rest)
  {
    var u := "[" + PrintInt(n) + "]" + rest;
    var tail := "]" + rest;
    assert u[1..] == PrintInt(n) + tail;
    AtoiReads(n, tail);
    assert tail[1..] == rest;
    assert ReadBracket(tail, n) == (ArrayIndex(n), rest);
    assert ReadIndex(PrintInt(n) + tail) == (ArrayIndex(n), rest);
  }

  lemma {:induction false} ReadOff(n: nat, startup: bool)
    ensures ReadToken("+" + Decimal(n), startup) == (OffsetBy(n), [])
  {
    var u, d := "+" + Decimal(n), Decimal(n);
    assert u[1..] == d && d + [] == d;
    DecimalReads(n, []);
    NumeralReads(d, false, d, []);
    assert OnlyNumber(d);
  }

  lemma {:induction false} ReadPrinted(t: Token, rest: string, startup: bool)
    requires Follows(rest) && (t.Id? ==> IsName(t.name)) && (t.Off? ==> rest == [])
    ensures ReadToken(Print(t) + rest, startup) == (WalkOf(t), rest)
  {
    match t
    case Id(name) => ReadId(name, rest, startup);
    case Ix(n) => ReadIx(n, rest, startup);
    case Off(n) =>
      assert Print(t) + rest == Print(t);
      ReadOff(n, startup);
  }

  /** Walking the printed form of any token list yields exactly those tokens and then the end. */
  lemma {:induction false} WalkPrinted(ts: seq<Token>, startup: bool)
    requires Printable(ts)
    ensures Yields(PrintAll(ts), startup, ts)
    decreases |ts|
  {
    if ts != [] {
      var rest := PrintAll(ts[1..]);
      assert Follows(rest);
      ReadPrinted(ts[0], rest, startup);
      WalkPrinted(ts[1..], startup && ts[0].Off?);
    }
  }
}
