/**
 From an offset to a member expression: which member, array element and remaining offset a byte of
 a type belongs to. What is printed is a function to token lists; the routines that append to a
 string buffer, and try the members of unions in scratch buffers, are proved to print it.
 */
module MemberStrings {
  import opened Bits
  import opened CTypes
  import opened IntegerStrings
  import opened Walker

  /** How good a match is, in rising order; Fatal stands for the library giving up. */
  datatype Rank = NoMatch | Padding | HitOffset | Hit | Fatal

  function Value(r: Rank): nat {
    match r case NoMatch => 0 case Padding => 1 case HitOffset => 2 case Hit => 3 case Fatal => 4
  }

  /** A match and what is appended for it. */
  datatype Match = Match(rank: Rank, tokens: seq<Token>)

  const FATAL := Match(Fatal, [])

  function After(tokens: seq<Token>, m: Match): Match {
    Match(m.rank, tokens + m.tokens)
  }

  /** Array indices for an offset, dividing the size by one dimension after the other. */
  function Indices(dims: seq<nat>, size: nat, offset: nat): Option<(seq<Token>, nat)> {
    if dims == [] then Some(([], offset))
    else if dims[0] == 0 || size / dims[0] == 0 then None
    else
      var item := size / dims[0];
      DivMod(offset, item);
      var r := Indices(dims[1..], item, offset - offset / item * item);
      if r.None? then None else Some(([Ix(offset / item)] + r.value.0, r.value.1))
  }

  function PadMatch(offset: nat): Match {
    Match(Padding, [Off(offset)])
  }

  /** Declarators without a name leave no trace. */
  function Naming(name: string): seq<Token> {
    if name == [] then [] else [Id(name)]
  }

  /** `append_member_string_rec`, of a member or of a type alone. */
  function MemberMatch(t: TypeSpec, decl: Option<Declarator>, offset: nat): Match
    requires decl.Some? ==> decl.value.offset <= offset
    decreases t, 5
  {
    if decl.Some? then
      var d := decl.value;
      After(Naming(d.name), Along(t, d, offset - if d.offset > 0 then d.offset else 0))
    else
      match t
      case TypeRef(td) =>
        if td.decl.offset > offset then FATAL
        else Along(td.typ, td.decl, offset - if td.decl.offset > 0 then td.decl.offset else 0)
      case _ => LeafMatch(t, false, offset)
  }

  /** Indices of an array declarator, and on through typedefs. */
  function Along(t: TypeSpec, d: Declarator, offset: nat): Match
    decreases t, 3
  {
    if d.size < 0 then FATAL
    else
      var r := Indices(Dims(d), d.size, offset);
      if r.None? then FATAL
      else if d.pointer || !t.TypeRef? then After(r.value.0, LeafMatch(t, d.pointer, r.value.1))
      else After(r.value.0, Onward(t.typedef.typ, t.typedef.decl, r.value.1))
  }

  /** Typedefs that add neither a pointer nor an array are skipped. */
  function Onward(t: TypeSpec, d: Declarator, offset: nat): Match
    decreases t, 4
  {
    if !d.pointer && t.TypeRef? && !d.ext.Array? then Onward(t.typedef.typ, t.typedef.decl, offset)
    else Along(t, d, offset)
  }

  function LeafMatch(t: TypeSpec, pointer: bool, offset: nat): Match
    decreases t, 2
  {
    if !pointer && t.Compound? then StructMatch(t.body, offset, offset)
    else if offset > 0 then Match(HitOffset, [Off(offset)])
    else Match(Hit, [])
  }

  /** The better of two matches; the first one wins a tie. */
  function Better(best: Option<Match>, m: Match): Option<Match> {
    if Value(m.rank) > (if best.Some? then Value(best.value.rank) else 0) then Some(m) else best
  }

  /** Either the search is over, or it goes on with the best match so far. */
  datatype Search = Done(m: Match) | Go(best: Option<Match>)

  /** In a union every alternative is tried, in a struct the first one is taken. */
  function Tried(isUnion: bool, best: Option<Match>, m: Match): Search {
    if !isUnion || m.rank == Fatal then Done(m)
    else
      var b := Better(best, m);
      if b.Some? && b.value.rank == Hit then Done(b.value) else Go(b)
  }

  /** `get_member_string_rec`: offset counts from this compound, whole from the last named one. */
  function StructMatch(s: Struct, offset: nat, whole: nat): Match
    decreases s
  {
    if s.decls == [] then Match(NoMatch, [])
    else
      match DeclsMatch(s.isUnion, s.decls, offset, whole, None)
      case Done(m) => m
      case Go(None) => PadMatch(whole)
      case Go(Some(m)) => m
  }

  function DeclsMatch(isUnion: bool, decls: seq<StructDecl>, offset: nat, whole: nat, best: Option<Match>): Search
    decreases decls
  {
    if decls == [] then Go(best)
    else
      var r := DeclMatch(isUnion, decls[0], offset, whole, best);
      if r.Done? then r else DeclsMatch(isUnion, decls[1..], offset, whole, r.best)
  }

  function DeclMatch(isUnion: bool, sd: StructDecl, offset: nat, whole: nat, best: Option<Match>): Search
    decreases sd
  {
    if sd.offset > offset then Done(PadMatch(whole))
    else if offset >= sd.offset + sd.size then Go(best)
    else if sd.declarators != [] then DeclaratorsMatch(isUnion, sd.typ, sd.declarators, offset, whole, best)
    else if isUnion then Tried(true, best, UnnamedMatch(sd.typ, offset, whole))
    else Done(UnnamedMatch(sd.typ, offset - sd.offset, whole))
  }

  function DeclaratorsMatch(isUnion: bool, t: TypeSpec, ds: seq<Declarator>, offset: nat, whole: nat,
                            best: Option<Match>): Search
    decreases t, 6, |ds|
  {
    if ds == [] then Go(best)
    else if ds[0].offset > offset then Done(PadMatch(whole))
    else
      var r :=
        if offset < ds[0].offset + ds[0].size then Tried(isUnion, best, MemberMatch(t, Some(ds[0]), offset))
        else Go(best);
      if r.Done? then r else DeclaratorsMatch(isUnion, t, ds[1..], offset, whole, r.best)
  }

  /** The compound an unnamed member stands for. */
  function UnnamedMatch(t: TypeSpec, offset: nat, whole: nat): Match
    decreases t, 2
  {
    match t
    case Compound(s) => StructMatch(s, offset, whole)
    case TypeRef(td) =>
      if td.decl.pointer || td.decl.ext.Array? then FATAL else UnnamedMatch(td.typ, offset, whole)
    case _ => FATAL
  }

  /** `get_member_string`: the dimensions not yet indexed, and then the type. */
  function InfoMatch(mi: MemberInfo, offset: nat): Match {
    if mi.decl.Some? && mi.level < |Dims(mi.decl.value)| then
      var r := Indices(Dims(mi.decl.value)[mi.level..], mi.size, offset);
      if r.None? then FATAL else After(r.value.0, MemberMatch(mi.typ, None, r.value.1))
    else MemberMatch(mi.typ, None, offset)
  }

  // ----- The routines -----

  /** A growing string; it holds printed tokens and nothing else. */
  class Buffer {
    var text: string
    ghost var tokens: seq<Token>

    constructor ()
      ensures Valid() && tokens == []
    {
      text, tokens := "", [];
    }

    constructor Copy(from: Buffer)
      requires from.Valid()
      ensures Valid() && tokens == from.tokens
    {
      text, tokens := from.text, from.tokens;
    }

    ghost predicate Valid()
      reads this
    {
      text == PrintAll(tokens)
    }

    method Append(t: Token)
      requires Valid()
      modifies this
      ensures Valid() && tokens == old(tokens) + [t]
    {
      PrintAppend(tokens, [t]);
      PrintSingle(t);
      text := text + Print(t);
      tokens := tokens + [t];
    }
  }

  lemma {:induction false} PrintSingle(t: Token)
    ensures PrintAll([t]) == Print(t)
  {
    assert [t][1..] == [];
    NothingMore(Print(t));
  }

  lemma {:induction false} NothingMore(s: string)
    ensures s + [] == s
  {
  }

  /** What remains completes what is done to the goal. */
  ghost predicate Completes(goal: Option<(seq<Token>, nat)>, done: seq<Token>, rest: Option<(seq<Token>, nat)>) {
    if rest.None? then goal.None? else goal == Some((done + rest.value.0, rest.value.1))
  }

  lemma {:induction false} CompletesStart(goal: Option<(seq<Token>, nat)>)
    ensures Completes(goal, [], goal)
  {
    if goal.Some? {
      assert [] + goal.value.0 == goal.value.0;
    }
  }

  lemma {:induction false} CompletesEnd(goal: Option<(seq<Token>, nat)>, done: seq<Token>, offset: nat)
    requires Completes(goal, done, Some(([], offset)))
    ensures goal == Some((done, offset))
  {
    assert done + [] == done;
  }

  lemma {:induction false} IndicesStep(goal: Option<(seq<Token>, nat)>, done: seq<Token>, dims: seq<nat>, size: nat,
                                       offset: nat)
    requires dims != [] && Completes(goal, done, Indices(dims, size, offset))
    ensures if dims[0] == 0 || size / dims[0] == 0 then goal.None?
      else
        var item := size / dims[0];
        var index := offset / item;
        offset - index * item >= 0
        && Completes(goal, done + [Ix(index)], Indices(dims[1..], item, offset - index * item))
  {
    if dims[0] != 0 && size / dims[0] != 0 {
      var item := size / dims[0];
      DivMod(offset, item);
      var r := Indices(dims[1..], item, offset - offset / item * item);
      if r.Some? {
        assert done + ([Ix(offset / item)] + r.value.0) == (done + [Ix(offset / item)]) + r.value.0;
      }
    }
  }

  /** The size of an element, the element an offset is in, and the offset in it. */
  method NextIndex(size: nat, dim: nat, offset: nat) returns (item: nat, index: nat, rest: nat)
    requires dim > 0 && size / dim > 0
    ensures item == size / dim && index == offset / item && rest == offset - index * item
  {
    item := size / dim;
    index := offset / item;
    DivMod(offset, item);
    rest := offset - index * item;
  }

  /** Print the indices of one declarator; the offset that is left, or none after a division by zero. */
  method AppendIndices(dims: seq<nat>, declSize: nat, start: nat, sv: Buffer) returns (r: Option<nat>)
    requires sv.Valid()
    modifies sv
    ensures sv.Valid()
    ensures var x := Indices(dims, declSize, start);
      if x.None? then r.None? else r == Some(x.value.1) && sv.tokens == old(sv.tokens) + x.value.0
  {
    var size: nat, offset: nat, k := declSize, start, 0;
    ghost var done: seq<Token> := [];
    ghost var goal := Indices(dims, declSize, start);
    assert dims[0..] == dims;
    CompletesStart(goal);
    while k < |dims|
      invariant k <= |dims| && sv.Valid() && sv.tokens == old(sv.tokens) + done
      invariant Completes(goal, done, Indices(dims[k..], size, offset))
    {
      IndicesStep(goal, done, dims[k..], size, offset);
      if dims[k] == 0 || size / dims[k] == 0 {
        return None;
      }
      assert dims[k..][1..] == dims[k + 1..];
      var index;
      size, index, offset := NextIndex(size, dims[k], offset);
      sv.Append(Ix(index));
      TokensAssociate(old(sv.tokens), done, [Ix(index)]);
      done := done + [Ix(index)];
      k := k + 1;
    }
    CompletesEnd(goal, done, offset);
    r := Some(offset);
  }

  /** A match has been appended to what was there before. */
  ghost predicate Appended(m: Match, rank: Rank, before: seq<Token>, after: seq<Token>) {
    rank == m.rank && (rank != Fatal ==> after == before + m.tokens)
  }

  /** What is left to append completes what has been appended. */
  ghost predicate Continues(goal: Match, done: seq<Token>, rest: Match) {
    goal.rank == rest.rank && (goal.rank != Fatal ==> goal.tokens == done + rest.tokens)
  }

  lemma {:induction false} TokensAssociate(a: seq<Token>, b: seq<Token>, c: seq<Token>)
    ensures (a + b) + c == a + (b + c)
  {
  }

  lemma {:induction false} ContinuesStart(goal: Match)
    ensures Continues(goal, [], goal)
  {
    assert [] + goal.tokens == goal.tokens;
  }

  lemma {:induction false} ContinuesStep(goal: Match, done: seq<Token>, more: seq<Token>, rest: Match)
    requires Continues(goal, done, After(more, rest))
    ensures Continues(goal, done + more, rest)
  {
    TokensAssociate(done, more, rest.tokens);
  }

  lemma {:induction false} ContinuesEnd(goal: Match, done: seq<Token>, rest: Match, rank: Rank, before: seq<Token>,
                                        after: seq<Token>)
    requires Continues(goal, done, rest) && Appended(rest, rank, before + done, after)
    ensures Appended(goal, rank, before, after)
  {
    TokensAssociate(before, done, rest.tokens);
  }

  /** The scratch buffer of the best match so far, which continues what sv holds. */
  ghost predicate Holds(best: Option<Match>, rank: Rank, bestSV: Buffer?, sv: Buffer)
    reads sv, bestSV
  {
    match best
    case None => bestSV == null && rank == NoMatch
    case Some(m) =>
      bestSV != null && bestSV != sv && bestSV.Valid() && rank == m.rank && bestSV.tokens == sv.tokens + m.tokens
  }

  /** The outcome of a search: a match appended to sv, which held `before`, or the best so far. */
  ghost predicate Reached(search: Search, before: seq<Token>, done: bool, rank: Rank, bestSV: Buffer?, sv: Buffer)
    reads sv, bestSV
  {
    && sv.Valid() && done == search.Done?
    && if done then rank == search.m.rank && (rank != Fatal ==> sv.tokens == before + search.m.tokens)
       else sv.tokens == before && Holds(search.best, rank, bestSV, sv)
  }

  /** `sv_setsv`. */
  method CopyInto(sv: Buffer, from: Buffer)
    requires from.Valid() && from != sv
    modifies sv
    ensures sv.Valid() && sv.tokens == from.tokens
  {
    sv.text := from.text;
    sv.tokens := from.tokens;
  }

  /** `GMS_HANDLE_PAD_REGION`. */
  method PadRegion(whole: nat, sv: Buffer) returns (rank: Rank)
    requires sv.Valid()
    modifies sv
    ensures sv.Valid() && rank == PadMatch(whole).rank && sv.tokens == old(sv.tokens) + PadMatch(whole).tokens
  {
    sv.Append(Off(whole));
    rank := Padding;
  }

  /** `GMS_HANDLE_BEST_MEMBER`: keep the scratch buffer of the better match; a hit ends the search. */
  method KeepBetter(r: Rank, tmpSV: Buffer, rank0: Rank, bestSV0: Buffer?, sv: Buffer, ghost m: Match,
                    ghost best0: Option<Match>)
    returns (done: bool, rank: Rank, bestSV: Buffer?)
    requires sv.Valid() && tmpSV != sv && tmpSV.Valid() && r == m.rank
    requires r != Fatal ==> tmpSV.tokens == sv.tokens + m.tokens
    requires Holds(best0, rank0, bestSV0, sv)
    modifies sv
    ensures Reached(Tried(true, best0, m), old(sv.tokens), done, rank, bestSV, sv)
    ensures bestSV == bestSV0 || bestSV == tmpSV
  {
    done, rank, bestSV := false, rank0, bestSV0;
    if r == Fatal {
      return true, Fatal, bestSV0;
    }
    if Value(r) > Value(rank0) {
      rank, bestSV := r, tmpSV;
    }
    if rank == Hit {
      CopyInto(sv, bestSV);
      done := true;
    }
  }

  method AppendName(name: string, sv: Buffer)
    requires sv.Valid()
    modifies sv
    ensures sv.Valid() && sv.tokens == old(sv.tokens) + Naming(name)
  {
    if name != [] {
      sv.Append(Id(name));
    }
  }

  /** `append_member_string_rec`. */
  method AppendMemberString(t: TypeSpec, decl: Option<Declarator>, start: nat, sv: Buffer) returns (rank: Rank)
    requires sv.Valid() && (decl.Some? ==> decl.value.offset <= start)
    modifies sv
    ensures sv.Valid()
    ensures Appended(MemberMatch(t, decl, start), rank, old(sv.tokens), sv.tokens)
    decreases t, 5
  {
    if decl.Some? {
      rank := AppendNamed(t, decl.value, start, sv);
    } else if t.TypeRef? {
      MatchFrom(t, None, start);
      rank := AppendFrom("", t.typedef.typ, t.typedef.decl, start, sv, old(sv.tokens));
    } else {
      rank := AppendLeaf(t, false, start, sv);
    }
  }

  method AppendNamed(t: TypeSpec, d: Declarator, start: nat, sv: Buffer) returns (rank: Rank)
    requires sv.Valid() && d.offset <= start
    modifies sv
    ensures sv.Valid()
    ensures Appended(MemberMatch(t, Some(d), start), rank, old(sv.tokens), sv.tokens)
    decreases t, 4, 1
  {
    MatchFrom(t, Some(d), start);
    AppendName(d.name, sv);
    rank := AppendFrom(d.name, t, d, start, sv, old(sv.tokens));
  }

  /** The match of a declarator at its own offset, after its name. */
  ghost function From(name: string, t: TypeSpec, d: Declarator, start: nat): Match {
    if d.offset > start then FATAL
    else After(Naming(name), Along(t, d, start - if d.offset > 0 then d.offset else 0))
  }

  lemma {:induction false} MatchFrom(t: TypeSpec, decl: Option<Declarator>, start: nat)
    requires (decl.Some? ==> decl.value.offset <= start) && (decl.Some? || t.TypeRef?)
    ensures decl.Some? ==> MemberMatch(t, decl, start) == From(decl.value.name, t, decl.value, start)
    ensures decl.None? ==> MemberMatch(t, decl, start) == From("", t.typedef.typ, t.typedef.decl, start)
  {
    if decl.None? && t.typedef.decl.offset <= start {
      var td := t.typedef;
      WithoutHead(Along(td.typ, td.decl, start - if td.decl.offset > 0 then td.decl.offset else 0));
    }
  }

  method AppendFrom(ghost name: string, t: TypeSpec, d: Declarator, start: nat, sv: Buffer, ghost before: seq<Token>)
    returns (rank: Rank)
    requires sv.Valid() && sv.tokens == before + Naming(name)
    modifies sv
    ensures sv.Valid() && Appended(From(name, t, d, start), rank, before, sv.tokens)
    decreases t, 4, 0
  {
    if d.offset > start {
      return Fatal;
    }
    var offset: nat := if d.offset > 0 then start - d.offset else start;
    rank := AppendAlong(t, d, offset, sv);
    Headed(Naming(name), Along(t, d, offset), rank, before, sv.tokens);
  }

  lemma {:induction false} Headed(head: seq<Token>, m: Match, rank: Rank, before: seq<Token>, after: seq<Token>)
    requires Appended(m, rank, before + head, after)
    ensures Appended(After(head, m), rank, before, after)
    ensures head == [] ==> After(head, m) == m
  {
    TokensAssociate(before, head, m.tokens);
    WithoutHead(m);
  }

  lemma {:induction false} WithoutHead(m: Match)
    ensures After([], m) == m
  {
    assert [] + m.tokens == m.tokens;
  }

  /** The loop over array declarators and typedefs. */
  method AppendAlong(t0: TypeSpec, d0: Declarator, start: nat, sv: Buffer) returns (rank: Rank)
    requires sv.Valid()
    modifies sv
    ensures sv.Valid()
    ensures Appended(Along(t0, d0, start), rank, old(sv.tokens), sv.tokens)
    decreases t0, 3
  {
    var t, d, offset := t0, d0, start;
    ghost var done: seq<Token> := [];
    ghost var goal := Along(t0, d0, start);
    ContinuesStart(goal);
    while true
      invariant t == t0 || t < t0
      invariant sv.Valid() && sv.tokens == old(sv.tokens) + done
      invariant Continues(goal, done, Along(t, d, offset))
      decreases t
    {
      if d.size < 0 {
        return Fatal;
      }
      ghost var x := Indices(Dims(d), d.size, offset);
      var r := AppendIndices(Dims(d), d.size, offset, sv);
      if r.None? {
        return Fatal;
      }
      offset := r.value;
      TokensAssociate(old(sv.tokens), done, x.value.0);
      if d.pointer || !t.TypeRef? {
        ContinuesStep(goal, done, x.value.0, LeafMatch(t, d.pointer, offset));
        done := done + x.value.0;
        break;
      }
      ContinuesStep(goal, done, x.value.0, Onward(t.typedef.typ, t.typedef.decl, offset));
      done := done + x.value.0;
      t, d := SkipTypedefs(t);
    }
    rank := AppendLeaf(t, d.pointer, offset, sv);
    ContinuesEnd(goal, done, LeafMatch(t, d.pointer, offset), rank, old(sv.tokens), sv.tokens);
  }

  /** The `do` loop: on to the next typedef that adds something, or to what is no typedef. */
  method SkipTypedefs(t0: TypeSpec) returns (t: TypeSpec, d: Declarator)
    requires t0.TypeRef?
    ensures t < t0
    ensures forall offset: nat :: Onward(t0.typedef.typ, t0.typedef.decl, offset) == Along(t, d, offset)
  {
    t, d := t0.typedef.typ, t0.typedef.decl;
    while !d.pointer && t.TypeRef? && !d.ext.Array?
      invariant t < t0
      invariant forall offset: nat :: Onward(t0.typedef.typ, t0.typedef.decl, offset) == Onward(t, d, offset)
      decreases t
    {
      t, d := t.typedef.typ, t.typedef.decl;
    }
  }

  method AppendLeaf(t: TypeSpec, pointer: bool, offset: nat, sv: Buffer) returns (rank: Rank)
    requires sv.Valid()
    modifies sv
    ensures sv.Valid()
    ensures Appended(LeafMatch(t, pointer, offset), rank, old(sv.tokens), sv.tokens)
    decreases t, 2
  {
    if !pointer && t.Compound? {
      rank := GetMemberStringRec(t.body, offset, offset, sv);
    } else if offset > 0 {
      sv.Append(Off(offset));
      rank := HitOffset;
    } else {
      rank := Hit;
    }
  }

  /** `get_member_string_rec`. */
  method GetMemberStringRec(s: Struct, offset: nat, whole: nat, sv: Buffer) returns (rank: Rank)
    requires sv.Valid()
    modifies sv
    ensures sv.Valid()
    ensures Appended(StructMatch(s, offset, whole), rank, old(sv.tokens), sv.tokens)
    decreases s
  {
    if s.decls == [] {
      return NoMatch;
    }
    var bestSV: Buffer? := null;
    ghost var best: Option<Match> := None;
    rank := NoMatch;
    var k := 0;
    while k < |s.decls|
      invariant k <= |s.decls| && sv.Valid() && sv.tokens == old(sv.tokens)
      invariant Holds(best, rank, bestSV, sv) && (bestSV != null ==> fresh(bestSV))
      invariant DeclsMatch(s.isUnion, s.decls, offset, whole, None)
          == DeclsMatch(s.isUnion, s.decls[k..], offset, whole, best)
    {
      var done;
      assert s.decls[k..][1..] == s.decls[k + 1..];
      ghost var r := DeclMatch(s.isUnion, s.decls[k], offset, whole, best);
      done, rank, bestSV := TryDecl(s.isUnion, s.decls[k], offset, whole, sv, rank, bestSV, best);
      if done {
        return;
      }
      best := r.best;
      k := k + 1;
    }
    if bestSV == null {
      rank := PadRegion(whole, sv);
    } else {
      CopyInto(sv, bestSV);
    }
  }

  method TryDecl(isUnion: bool, sd: StructDecl, offset: nat, whole: nat, sv: Buffer, rank0: Rank, bestSV0: Buffer?,
                 ghost best0: Option<Match>)
    returns (done: bool, rank: Rank, bestSV: Buffer?)
    requires sv.Valid() && Holds(best0, rank0, bestSV0, sv)
    modifies sv
    ensures Reached(DeclMatch(isUnion, sd, offset, whole, best0), old(sv.tokens), done, rank, bestSV, sv)
    ensures bestSV == null || bestSV == bestSV0 || fresh(bestSV)
    decreases sd
  {
    done, rank, bestSV := true, rank0, bestSV0;
    if sd.offset > offset {
      rank := PadRegion(whole, sv);
    } else if offset >= sd.offset + sd.size {
      done := false;
    } else if sd.declarators != [] {
      done, rank, bestSV := TryDeclarators(isUnion, sd.typ, sd.declarators, offset, whole, sv, rank0, bestSV0, best0);
    } else if isUnion {
      var tmpSV := new Buffer.Copy(sv);
      var r := AppendUnnamed(sd.typ, offset, whole, tmpSV);
      done, rank, bestSV := KeepBetter(r, tmpSV, rank0, bestSV0, sv, UnnamedMatch(sd.typ, offset, whole), best0);
    } else {
      rank := AppendUnnamed(sd.typ, offset - sd.offset, whole, sv);
    }
  }

  method TryDeclarators(isUnion: bool, t: TypeSpec, ds: seq<Declarator>, offset: nat, whole: nat, sv: Buffer,
                        rank0: Rank, bestSV0: Buffer?, ghost best0: Option<Match>)
    returns (done: bool, rank: Rank, bestSV: Buffer?)
    requires sv.Valid() && Holds(best0, rank0, bestSV0, sv)
    modifies sv
    ensures Reached(DeclaratorsMatch(isUnion, t, ds, offset, whole, best0), old(sv.tokens), done, rank, bestSV, sv)
    ensures bestSV == null || bestSV == bestSV0 || fresh(bestSV)
    decreases t, 6, |ds|
  {
    done, rank, bestSV := false, rank0, bestSV0;
    ghost var best := best0;
    var k := 0;
    while k < |ds|
      invariant k <= |ds| && !done && sv.Valid() && sv.tokens == old(sv.tokens)
      invariant Holds(best, rank, bestSV, sv) && (bestSV == null || bestSV == bestSV0 || fresh(bestSV))
      invariant DeclaratorsMatch(isUnion, t, ds, offset, whole, best0)
          == DeclaratorsMatch(isUnion, t, ds[k..], offset, whole, best)
    {
      assert ds[k..][1..] == ds[k + 1..];
      if ds[k].offset > offset {
        rank := PadRegion(whole, sv);
        done := true;
        return;
      }
      if offset < ds[k].offset + ds[k].size {
        ghost var r := Tried(isUnion, best, MemberMatch(t, Some(ds[k]), offset));
        done, rank, bestSV := TryMember(isUnion, t, ds[k], offset, sv, rank, bestSV, best);
        if done {
          return;
        }
        best := r.best;
      }
      k := k + 1;
    }
  }

  method TryMember(isUnion: bool, t: TypeSpec, d: Declarator, offset: nat, sv: Buffer, rank0: Rank, bestSV0: Buffer?,
                   ghost best0: Option<Match>)
    returns (done: bool, rank: Rank, bestSV: Buffer?)
    requires sv.Valid() && Holds(best0, rank0, bestSV0, sv) && d.offset <= offset
    modifies sv
    ensures Reached(Tried(isUnion, best0, MemberMatch(t, Some(d), offset)), old(sv.tokens), done, rank, bestSV, sv)
    ensures bestSV == null || bestSV == bestSV0 || fresh(bestSV)
    decreases t, 6, 0
  {
    if isUnion {
      var tmpSV := new Buffer.Copy(sv);
      var r := AppendMemberString(t, Some(d), offset, tmpSV);
      done, rank, bestSV := KeepBetter(r, tmpSV, rank0, bestSV0, sv, MemberMatch(t, Some(d), offset), best0);
    } else {
      rank := AppendMemberString(t, Some(d), offset, sv);
      done, bestSV := true, bestSV0;
    }
  }

  method AppendUnnamed(t: TypeSpec, offset: nat, whole: nat, sv: Buffer) returns (rank: Rank)
    requires sv.Valid()
    modifies sv
    ensures sv.Valid()
    ensures Appended(UnnamedMatch(t, offset, whole), rank, old(sv.tokens), sv.tokens)
    decreases t, 2
  {
    match t {
      case Compound(s) => rank := GetMemberStringRec(s, offset, whole, sv);
      case TypeRef(td) =>
        if td.decl.pointer || td.decl.ext.Array? {
          rank := Fatal;
        } else {
          rank := AppendUnnamed(td.typ, offset, whole, sv);
        }
      case _ => rank := Fatal;
    }
  }

  method GetMemberString(mi: MemberInfo, start: nat) returns (r: Option<string>)
    ensures var m := InfoMatch(mi, start);
      r == if m.rank == NoMatch || m.rank == Fatal then None else Some(PrintAll(m.tokens))
  {
    var sv := new Buffer();
    var offset := start;
    ghost var head: seq<Token> := [];
    if mi.decl.Some? && mi.level < |Dims(mi.decl.value)| {
      var dims := Dims(mi.decl.value)[mi.level..];
      var rest := AppendIndices(dims, mi.size, offset, sv);
      if rest.None? {
        return None;
      }
      head := Indices(dims, mi.size, offset).value.0;
      offset := rest.value;
    }
    assert [] + head == head;
    var rank := AppendMemberString(mi.typ, None, offset, sv);
    Headed(head, MemberMatch(mi.typ, None, offset), rank, [], sv.tokens);
    assert rank != Fatal ==> sv.tokens == InfoMatch(mi, start).tokens;
    r := if rank == NoMatch || rank == Fatal then None else Some(sv.text);
  }
}
