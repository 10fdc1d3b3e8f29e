/**
 How good the printed match is, and which alternative of a union it comes from: the first one that is hit at its
 start, or else inside, or else in its padding.
 */
module MemberRanks {
  import opened Bits
  import opened CTypes
  import opened Bitfields
  import opened Layout
  import opened LayoutSafety
  import opened IntegerStrings
  import opened Numerals
  import opened Walker
  import opened MemberLookup
  import opened MemberStrings
  import opened MemberRoundTrip

  // ----- The alternatives of a union -----

  /** Every alternative starts where the union does. */
  ghost predicate Flat(decls: seq<StructDecl>) {
    forall sd | sd in decls :: sd.offset == 0 && forall d | d in sd.declarators :: d.offset == 0
  }

  /** The matches of the alternatives that the offset is in, in the order of their declaration. */
  function Alternatives(decls: seq<StructDecl>, off: nat, whole: nat): seq<Match>
    requires Flat(decls)
  {
    if decls == [] then []
    else
      var sd := decls[0];
      (if off >= sd.size then []
       else if sd.declarators == [] then [UnnamedMatch(sd.typ, off, whole)]
       else MemberAlternatives(sd.typ, sd.declarators, off))
      + Alternatives(decls[1..], off, whole)
  }

  function MemberAlternatives(t: TypeSpec, ds: seq<Declarator>, off: nat): seq<Match>
    requires forall d | d in ds :: d.offset == 0
  {
    if ds == [] then []
    else (if off < ds[0].size then [MemberMatch(t, Some(ds[0]), off)] else []) + MemberAlternatives(t, ds[1..], off)
  }

  /** The first match of one of the ranks. */
  function FirstOf(ms: seq<Match>, ranks: set<Rank>): Option<Match> {
    if ms == [] then None else if ms[0].rank in ranks then Some(ms[0]) else FirstOf(ms[1..], ranks)
  }

  ghost predicate IsFirst(ms: seq<Match>, ranks: set<Rank>, k: nat) {
    k < |ms| && ms[k].rank in ranks && forall i | 0 <= i < k :: ms[i].rank !in ranks
  }

  lemma {:induction false} FirstIs(ms: seq<Match>, ranks: set<Rank>)
    ensures FirstOf(ms, ranks) == None ==> forall m | m in ms :: m.rank !in ranks
    ensures FirstOf(ms, ranks).Some? ==> exists k: nat :: IsFirst(ms, ranks, k) && FirstOf(ms, ranks) == Some(ms[k])
    decreases |ms|
  {
    if ms != [] {
      if ms[0].rank in ranks {
        assert IsFirst(ms, ranks, 0);
      } else {
        FirstIs(ms[1..], ranks);
        if FirstOf(ms, ranks).Some? {
          var k: nat :| IsFirst(ms[1..], ranks, k) && FirstOf(ms, ranks) == Some(ms[1..][k]);
          assert IsFirst(ms, ranks, k + 1);
        }
      }
    }
  }

  /** One alternative after the other. */
  function Picked(ms: seq<Match>, best: Option<Match>): Search {
    if ms == [] then Go(best)
    else
      var r := Tried(true, best, ms[0]);
      if r.Done? then r else Picked(ms[1..], r.best)
  }

  lemma {:induction false} PickedOn(xs: seq<Match>, ys: seq<Match>, best: Option<Match>)
    ensures var r := Picked(xs, best);
      Picked(xs + ys, best) == if r.Done? then r else Picked(ys, r.best)
    decreases |xs|
  {
    if xs == [] {
      assert xs + ys == ys;
    } else {
      assert (xs + ys)[1..] == xs[1..] + ys;
      var r := Tried(true, best, xs[0]);
      if r.Go? {
        PickedOn(xs[1..], ys, r.best);
      }
    }
  }

  lemma {:induction false} MembersPicked(t: TypeSpec, ds: seq<Declarator>, off: nat, whole: nat, best: Option<Match>)
    requires forall d | d in ds :: d.offset == 0
    ensures DeclaratorsMatch(true, t, ds, off, whole, best) == Picked(MemberAlternatives(t, ds, off), best)
    decreases |ds|
  {
    if ds != [] {
      if off < ds[0].size {
        var m := MemberMatch(t, Some(ds[0]), off);
        assert ([m] + MemberAlternatives(t, ds[1..], off))[1..] == MemberAlternatives(t, ds[1..], off);
        var r := Tried(true, best, m);
        if r.Go? {
          MembersPicked(t, ds[1..], off, whole, r.best);
        }
      } else {
        assert [] + MemberAlternatives(t, ds[1..], off) == MemberAlternatives(t, ds[1..], off);
        MembersPicked(t, ds[1..], off, whole, best);
      }
    }
  }

  lemma {:induction false} AllPicked(decls: seq<StructDecl>, off: nat, whole: nat, best: Option<Match>)
    requires Flat(decls)
    ensures DeclsMatch(true, decls, off, whole, best) == Picked(Alternatives(decls, off, whole), best)
    decreases |decls|
  {
    if decls != [] {
      var sd, rest := decls[0], Alternatives(decls[1..], off, whole);
      var r := DeclMatch(true, sd, off, whole, best);
      if off >= sd.size {
        assert [] + rest == rest;
      } else if sd.declarators == [] {
        assert ([UnnamedMatch(sd.typ, off, whole)] + rest)[1..] == rest;
      } else {
        MembersPicked(sd.typ, sd.declarators, off, whole, best);
        PickedOn(MemberAlternatives(sd.typ, sd.declarators, off), rest, best);
      }
      if r.Go? {
        AllPicked(decls[1..], off, whole, r.best);
      }
    }
  }

  /** What a search through matches ends with, from the best one so far. */
  ghost function BestOf(ms: seq<Match>, best: Option<Match>): Option<Match> {
    if best.Some? && best.value.rank == HitOffset then best
    else if FirstOf(ms, {HitOffset}).Some? then FirstOf(ms, {HitOffset})
    else if best.Some? then best
    else FirstOf(ms, {Padding})
  }

  lemma {:induction false} PickedIs(ms: seq<Match>, best: Option<Match>)
    requires best.Some? ==> best.value.rank in {Padding, HitOffset}
    ensures var over := FirstOf(ms, {Hit, Fatal});
      Picked(ms, best) == if over.Some? then Done(over.value) else Go(BestOf(ms, best))
    decreases |ms|
  {
    if ms != [] {
      var r := Tried(true, best, ms[0]);
      if r.Go? {
        PickedIs(ms[1..], r.best);
      }
    }
  }

  /** The first hit (or failure), or else the first match inside a leaf, or else the first one in padding. */
  lemma {:induction false} UnionBest(s: Struct, off: nat, whole: nat)
    requires s.isUnion && s.decls != [] && Flat(s.decls)
    ensures var ms := Alternatives(s.decls, off, whole);
      var over, inside, pad := FirstOf(ms, {Hit, Fatal}), FirstOf(ms, {HitOffset}), FirstOf(ms, {Padding});
      StructMatch(s, off, whole) ==
        if over.Some? then over.value
        else if inside.Some? then inside.value
        else if pad.Some? then pad.value
        else Match(Padding, [Off(whole)])
  {
    AllPicked(s.decls, off, whole, None);
    PickedIs(Alternatives(s.decls, off, whole), None);
  }

  // ----- Leaves -----

  /** An offset into an item is in one of its leaves, or (if start) where one starts. */
  ghost predicate LeafAt(lp: LayoutParam, t: TypeSpec, pointer: bool, off: int, start: bool)
    requires Sized(lp, t)
    decreases t, 0
  {
    if !pointer && t.TypeRef? then DeclaratorAt(lp, t.typedef.typ, t.typedef.decl, off, start)
    else if !pointer && t.Compound? then DeclsAt(lp, t.body.decls, |t.body.decls|, off, start)
    else 0 <= off < ItemInfo(lp, t, pointer).item && (start ==> off == 0)
  }

  /** The same for a declarator: the offset into the element that it is in. */
  ghost predicate DeclaratorAt(lp: LayoutParam, t: TypeSpec, d: Declarator, off: int, start: bool)
    requires Sized(lp, t)
    decreases t, 1
  {
    var item := ItemInfo(lp, t, d.pointer).item;
    0 <= off < d.size && item > 0 && LeafAt(lp, t, d.pointer, off % item, start)
  }

  ghost predicate NamedAt(lp: LayoutParam, t: TypeSpec, d: Declarator, off: int, start: bool)
    requires Sized(lp, t)
    decreases t, 2
  {
    DeclaratorAt(lp, t, d, off - d.offset, start)
  }

  /** The same for the first k of some declarators. */
  ghost predicate MembersAt(lp: LayoutParam, t: TypeSpec, ds: seq<Declarator>, k: nat, off: int, start: bool)
    requires Sized(lp, t)
    decreases t, 3
  {
    exists j :: 0 <= j < k && j < |ds| && NamedAt(lp, t, ds[j], off, start)
  }

  ghost predicate DeclAt(lp: LayoutParam, sd: StructDecl, off: int, start: bool)
    decreases sd
  {
    && Sized(lp, sd.typ)
    && if sd.declarators == [] then LeafAt(lp, sd.typ, false, off - sd.offset, start)
       else MembersAt(lp, sd.typ, sd.declarators, |sd.declarators|, off, start)
  }

  /** The same for the first k of some declarations. */
  ghost predicate DeclsAt(lp: LayoutParam, decls: seq<StructDecl>, k: nat, off: int, start: bool)
    decreases decls
  {
    exists i :: 0 <= i < k && i < |decls| && DeclAt(lp, decls[i], off, start)
  }

  // ----- Where members are -----

  /** A declaration's members lie between its start and its end; in a struct they follow one another. */
  ghost predicate Spread(lp: LayoutParam, isUnion: bool, sd: StructDecl)
    requires Sized(lp, sd.typ)
  {
    && 0 <= sd.offset && 0 <= sd.size && (isUnion ==> sd.offset == 0)
    && (sd.declarators == [] ==> ItemInfo(lp, sd.typ, false).item <= sd.size)
    && MembersSpread(lp, isUnion, sd.typ, sd.declarators, sd.offset, sd.offset + sd.size)
  }

  ghost predicate MembersSpread(lp: LayoutParam, isUnion: bool, t: TypeSpec, ds: seq<Declarator>, lo: int, hi: int)
    requires Sized(lp, t)
  {
    && (forall d | d in ds ::
          && lo <= d.offset && d.offset + d.size <= hi && 0 <= d.size == TypeInfo(lp, t, d).size
          && (isUnion ==> d.offset == 0))
    && (!isUnion ==> forall i, j | 0 <= i < j < |ds| :: ds[i].offset + ds[i].size <= ds[j].offset)
  }

  ghost predicate DeclsSpread(lp: LayoutParam, isUnion: bool, decls: seq<StructDecl>, lo: int, hi: int) {
    && (forall sd | sd in decls ::
          Sized(lp, sd.typ) && Spread(lp, isUnion, sd) && lo <= sd.offset && sd.offset + sd.size <= hi)
    && (!isUnion ==> forall i, j | 0 <= i < j < |decls| :: decls[i].offset + decls[i].size <= decls[j].offset)
  }

  lemma {:induction false} MoreMembers(lp: LayoutParam, isUnion: bool, t: TypeSpec, ds: seq<Declarator>, lo: int,
                                       mid: int, hi: int)
    requires Sized(lp, t) && ds != [] && MembersSpread(lp, isUnion, t, ds[..|ds| - 1], lo, mid) && mid <= hi
    requires var d := ds[|ds| - 1];
      && lo <= d.offset && d.offset + d.size <= hi && 0 <= d.size == TypeInfo(lp, t, d).size
      && if isUnion then d.offset == 0 else mid <= d.offset
    ensures MembersSpread(lp, isUnion, t, ds, lo, hi)
  {
    var first, d := ds[..|ds| - 1], ds[|ds| - 1];
    assert ds == first + [d];
    forall i, j | 0 <= i < j < |ds| && !isUnion
      ensures ds[i].offset + ds[i].size <= ds[j].offset
    {
      assert ds[i] == first[i] && first[i] in first;
      if j < |first| {
        assert ds[j] == first[j];
      }
    }
  }

  lemma {:induction false} MoreDecls(lp: LayoutParam, isUnion: bool, decls: seq<StructDecl>, lo: int, mid: int,
                                     hi: int)
    requires decls != [] && DeclsSpread(lp, isUnion, decls[..|decls| - 1], lo, mid) && mid <= hi
    requires var sd := decls[|decls| - 1];
      && Sized(lp, sd.typ) && Spread(lp, isUnion, sd) && lo <= sd.offset && sd.offset + sd.size <= hi
      && (!isUnion ==> mid <= sd.offset)
    ensures DeclsSpread(lp, isUnion, decls, lo, hi)
  {
    var first, sd := decls[..|decls| - 1], decls[|decls| - 1];
    assert decls == first + [sd];
    forall i, j | 0 <= i < j < |decls| && !isUnion
      ensures decls[i].offset + decls[i].size <= decls[j].offset
    {
      assert decls[i] == first[i] && first[i] in first;
      if j < |first| {
        assert decls[j] == first[j];
      }
    }
  }

  lemma {:induction false} PlacedMembers(c: Context, p: Progress, t: TypeSpec, ds: seq<Declarator>)
    requires ProgressOk(c, p) && p.open == None && DeclaratorsOk(c, t, ds)
    requires (forall d | d in ds :: !d.ext.Bitfield?) && PlaceDeclarators(c, p, t, ds).decls == ds
    ensures var q := PlaceDeclarators(c, p, t, ds);
      && q.p.open == None && p.size <= q.p.size
      && MembersSpread(c.lp, c.isUnion, t, ds, if c.isUnion then 0 else p.size, q.p.size)
      && (ds != [] ==> q.first == ds[0].offset)
  {
    if ds != [] {
      var q, d := PlaceDeclarators(c, p, t, ds[..|ds| - 1]), ds[|ds| - 1];
      SplitDeclarators(c, p, t, ds);
      PlacedMembers(c, p, t, ds[..|ds| - 1]);
      assert PlaceDeclarator(c, q, t, d).decls[|q.decls|] == d;
      MoreMembers(c.lp, c.isUnion, t, ds, if c.isUnion then 0 else p.size, q.p.size,
                  PlaceDeclarators(c, p, t, ds).p.size);
    }
  }

  lemma {:induction false} PlacedDecl(c: Context, p: Progress, sd: StructDecl)
    requires ProgressOk(c, p) && p.open == None && DeclOk(c, sd) && NoBitfields(sd) && PlaceDecl(c, p, sd).1 == sd
    ensures var q := PlaceDecl(c, p, sd).0;
      && q.open == None && p.size <= q.size && Spread(c.lp, c.isUnion, sd)
      && sd.offset + sd.size == q.size && (!c.isUnion ==> p.size <= sd.offset)
  {
    if sd.declarators != [] {
      assert PlaceDeclarators(c, p, sd.typ, sd.declarators).decls == sd.declarators;
      PlacedMembers(c, p, sd.typ, sd.declarators);
      assert sd.declarators[0] in sd.declarators;
    }
  }

  lemma {:induction false} PlacedDecls(c: Context, p: Progress, decls: seq<StructDecl>)
    requires ProgressOk(c, p) && p.open == None && DeclsOk(c, decls) && PlaceDecls(c, p, decls).1 == decls
    requires forall sd | sd in decls :: NoBitfields(sd)
    ensures var q := PlaceDecls(c, p, decls).0;
      && q.open == None && p.size <= q.size
      && DeclsSpread(c.lp, c.isUnion, decls, if c.isUnion then 0 else p.size, q.size)
  {
    if decls != [] {
      var q, sd := PlaceDecls(c, p, decls[..|decls| - 1]), decls[|decls| - 1];
      SplitDecls(c, p, decls);
      PlacedDecls(c, p, decls[..|decls| - 1]);
      PlacedDecl(c, q.0, sd);
      MoreDecls(c.lp, c.isUnion, decls, if c.isUnion then 0 else p.size, q.0.size, PlaceDecls(c, p, decls).0.size);
    }
  }

  lemma {:induction false} PlacedStruct(cfg: Config, s: Struct)
    requires Usable(cfg) && StructLaidOut(cfg, s) && forall sd | sd in s.decls :: NoBitfields(sd)
    ensures DeclsSpread(cfg.lp, s.isUnion, s.decls, 0, s.size)
  {
    PlacedDecls(ContextOf(cfg, s), Layout.Start(cfg, s), s.decls);
  }

  /** All alternatives of a laid-out union start where it does. */
  lemma {:induction false} UnionFlat(cfg: Config, s: Struct)
    requires Usable(cfg) && StructLaidOut(cfg, s) && s.isUnion && forall sd | sd in s.decls :: NoBitfields(sd)
    ensures Flat(s.decls)
  {
    PlacedStruct(cfg, s);
  }

  // ----- Leaves are inside -----

  /** Where a leaf starts, there is one; and leaves are inside. */
  lemma {:induction false} LeafInside(cfg: Config, t: TypeSpec, pointer: bool, off: int, start: bool)
    requires Usable(cfg) && LaidOut(cfg, t) && (!pointer ==> Resolvable(t)) && LeafAt(cfg.lp, t, pointer, off, start)
    ensures 0 <= off < ItemInfo(cfg.lp, t, pointer).item && LeafAt(cfg.lp, t, pointer, off, false)
    decreases t, 1
  {
    if !pointer && t.TypeRef? {
      var td := t.typedef;
      TypedefDeclared(cfg, td);
      DeclaratorInside(cfg, td.typ, td.decl, off, start);
    } else if !pointer && t.Compound? {
      var s := t.body;
      PlainMembers(s);
      PlacedStruct(cfg, s);
      var i :| 0 <= i < |s.decls| && DeclAt(cfg.lp, s.decls[i], off, start);
      assert s.decls[i] in s.decls && DeclResolvable(s.decls[i]);
      DeclInside(cfg, s.isUnion, s.decls[i], off, start);
    }
  }

  lemma {:induction false} DeclaratorInside(cfg: Config, t: TypeSpec, d: Declarator, off: int, start: bool)
    requires Usable(cfg) && LaidOut(cfg, t) && (!d.pointer ==> Resolvable(t)) && DeclaratorAt(cfg.lp, t, d, off, start)
    ensures 0 <= off < d.size && DeclaratorAt(cfg.lp, t, d, off, false)
    decreases t, 2
  {
    LeafInside(cfg, t, d.pointer, off % ItemInfo(cfg.lp, t, d.pointer).item, start);
  }

  lemma {:induction false} MembersInside(cfg: Config, t: TypeSpec, ds: seq<Declarator>, k: nat, off: int, start: bool)
    requires Usable(cfg) && LaidOut(cfg, t) && (forall d | d in ds && !d.pointer :: Resolvable(t))
    requires MembersAt(cfg.lp, t, ds, k, off, start)
    ensures MembersAt(cfg.lp, t, ds, k, off, false)
    ensures exists d | d in ds :: d.offset <= off < d.offset + d.size
    decreases t, 3
  {
    var j :| 0 <= j < k && j < |ds| && NamedAt(cfg.lp, t, ds[j], off, start);
    assert ds[j] in ds;
    DeclaratorInside(cfg, t, ds[j], off - ds[j].offset, start);
  }

  lemma {:induction false} DeclInside(cfg: Config, isUnion: bool, sd: StructDecl, off: int, start: bool)
    requires Usable(cfg) && LaidOut(cfg, sd.typ) && DeclResolvable(sd) && Spread(cfg.lp, isUnion, sd)
    requires DeclAt(cfg.lp, sd, off, start)
    ensures sd.offset <= off < sd.offset + sd.size && DeclAt(cfg.lp, sd, off, false)
    decreases sd
  {
    if sd.declarators == [] {
      LeafInside(cfg, sd.typ, false, off - sd.offset, start);
    } else {
      MembersInside(cfg, sd.typ, sd.declarators, |sd.declarators|, off, start);
    }
  }

  // ----- Ranks -----

  ghost predicate NoOffset(ts: seq<Token>) {
    forall i | 0 <= i < |ts| :: !ts[i].Off?
  }

  ghost predicate EndsInOffset(ts: seq<Token>) {
    ts != [] && ts[|ts| - 1].Off?
  }

  /** A hit where a leaf starts, an offset into a leaf, or an offset into padding. */
  ghost predicate Ranked(m: Match, starts: bool, covered: bool) {
    && m.rank == (if starts then Hit else if covered then HitOffset else Padding)
    && if starts then NoOffset(m.tokens) else EndsInOffset(m.tokens)
  }

  lemma {:induction false} RankedAfter(ts: seq<Token>, m: Match, starts: bool, covered: bool)
    requires Ranked(m, starts, covered) && NoOffset(ts)
    ensures Ranked(After(ts, m), starts, covered)
  {
  }

  /** The indices of an array leave the offset into the element. */
  lemma {:induction false} IndicesLeave(dims: seq<nat>, item: nat, off: nat)
    requires (forall i | 0 <= i < |dims| :: dims[i] > 0) && off < item * Product(dims)
    ensures var r := Indices(dims, item * Product(dims), off);
      r.Some? && item > 0 && r.value.1 == off % item && NoOffset(r.value.0)
    decreases |dims|
  {
    if dims == [] {
      ModSmall(off, item);
    } else {
      var part := item * Product(dims[1..]);
      ProductParts(item, dims[0], Product(dims[1..]));
      SizeSplits(dims[0], part, item * Product(dims), off);
      DivMod(off, part);
      IndicesLeave(dims[1..], item, off % part);
      PartPositive(item, Product(dims[1..]));
      ModFactor(off, item, Product(dims[1..]));
    }
  }

  lemma PartPositive(a: nat, b: nat)
    requires a * b > 0
    ensures a > 0 && b > 0
  {
  }

  lemma {:induction false} AlongRank(cfg: Config, t: TypeSpec, d: Declarator, off: nat)
    requires Usable(cfg) && Declared(cfg, t, d) && off < d.size
    ensures Ranked(Along(t, d, off), DeclaratorAt(cfg.lp, t, d, off, true), DeclaratorAt(cfg.lp, t, d, off, false))
    decreases t, 3
  {
    var item := ItemInfo(cfg.lp, t, d.pointer).item;
    IndicesLeave(Dims(d), item, off);
    var r := Indices(Dims(d), d.size, off).value;
    var starts, covered := DeclaratorAt(cfg.lp, t, d, off, true), DeclaratorAt(cfg.lp, t, d, off, false);
    if d.pointer || !t.TypeRef? {
      LeafRank(cfg, t, d.pointer, r.1);
      RankedAfter(r.0, LeafMatch(t, d.pointer, r.1), starts, covered);
    } else {
      var td := t.typedef;
      TypedefDeclared(cfg, td);
      OnwardRank(cfg, td.typ, td.decl, r.1);
      TypedefAt(cfg.lp, td, r.1);
      RankedAfter(r.0, Onward(td.typ, td.decl, r.1), starts, covered);
    }
  }

  lemma {:induction false} TypedefAt(lp: LayoutParam, td: Typedef, off: int)
    requires Sized(lp, td.typ)
    ensures forall start: bool ::
      LeafAt(lp, TypeRef(td), false, off, start) == DeclaratorAt(lp, td.typ, td.decl, off, start)
  {
  }

  lemma {:induction false} OnwardRank(cfg: Config, t: TypeSpec, d: Declarator, off: nat)
    requires Usable(cfg) && Declared(cfg, t, d) && off < d.size
    ensures Ranked(Onward(t, d, off), DeclaratorAt(cfg.lp, t, d, off, true), DeclaratorAt(cfg.lp, t, d, off, false))
    decreases t, 4
  {
    if !d.pointer && t.TypeRef? && !d.ext.Array? {
      var td := t.typedef;
      assert Product(Dims(d)) == 1;
      assert d.size == ItemInfo(cfg.lp, t, false).item;
      TypedefDeclared(cfg, td);
      ModSmall(off, d.size);
      OnwardRank(cfg, td.typ, td.decl, off);
    } else {
      AlongRank(cfg, t, d, off);
    }
  }

  lemma {:induction false} LeafRank(cfg: Config, t: TypeSpec, pointer: bool, off: nat)
    requires Usable(cfg) && LaidOut(cfg, t) && (pointer || !t.TypeRef?) && (!pointer ==> Resolvable(t))
    requires off < ItemInfo(cfg.lp, t, pointer).item
    ensures Ranked(LeafMatch(t, pointer, off), LeafAt(cfg.lp, t, pointer, off, true),
                   LeafAt(cfg.lp, t, pointer, off, false))
    decreases t, 2
  {
    if !pointer && t.Compound? {
      StructRank(cfg, t.body, off, off);
    }
  }

  // ----- Searches -----

  /** The best match so far: nothing has been hit, and what is covered has a match inside. */
  ghost predicate BestRanked(best: Option<Match>, starts: bool, covered: bool) {
    !starts && match best case None => !covered case Some(m) => Ranked(m, starts, covered)
  }

  ghost predicate SearchRanked(search: Search, starts: bool, covered: bool) {
    match search case Done(m) => Ranked(m, starts, covered) case Go(best) => BestRanked(best, starts, covered)
  }

  lemma {:induction false} TriedRanked(best: Option<Match>, m: Match, starts: bool, covered: bool, starts': bool,
                                       covered': bool)
    requires BestRanked(best, starts, covered) && Ranked(m, starts', covered')
    ensures SearchRanked(Tried(true, best, m), starts', covered || covered')
    ensures Tried(true, best, m).Done? ==> starts'
  {
  }

  lemma {:induction false} MemberRank(cfg: Config, t: TypeSpec, d: Declarator, off: nat)
    requires Usable(cfg) && Declared(cfg, t, d) && 0 <= d.offset <= off < d.offset + d.size && d.name != []
    ensures Ranked(MemberMatch(t, Some(d), off), NamedAt(cfg.lp, t, d, off, true),
                   NamedAt(cfg.lp, t, d, off, false))
    decreases t, 5
  {
    MatchOfMember(t, d, off);
    AlongRank(cfg, t, d, off - d.offset);
    RankedAfter([Id(d.name)], Along(t, d, off - d.offset), NamedAt(cfg.lp, t, d, off, true),
                NamedAt(cfg.lp, t, d, off, false));
  }

  /** A match of the whole compound is a hit exactly where one of its leaves starts, and an offset into a leaf
      exactly where one is in the middle: in unions, whichever alternative that leaf is in. */
  lemma {:induction false} StructRank(cfg: Config, s: Struct, off: nat, whole: nat)
    requires Usable(cfg) && StructLaidOut(cfg, s) && Resolvable(Compound(s))
    ensures Ranked(StructMatch(s, off, whole), LeafAt(cfg.lp, Compound(s), false, off, true),
                   LeafAt(cfg.lp, Compound(s), false, off, false))
    decreases s, 2
  {
    PlainMembers(s);
    PlacedStruct(cfg, s);
    assert s.decls[0..] == s.decls;
    if s.isUnion {
      UnionRank(cfg, s, off, whole, 0, None);
    } else {
      DeclsRank(cfg, s, off, whole, 0);
    }
  }

  // ----- Unions -----

  lemma {:induction false} UnionRank(cfg: Config, s: Struct, off: nat, whole: nat, k: nat, best: Option<Match>)
    requires Usable(cfg) && StructLaidOut(cfg, s) && Resolvable(Compound(s)) && s.isUnion && k <= |s.decls|
    requires DeclsSpread(cfg.lp, true, s.decls, 0, s.size)
    requires BestRanked(best, DeclsAt(cfg.lp, s.decls, k, off, true), DeclsAt(cfg.lp, s.decls, k, off, false))
    ensures SearchRanked(DeclsMatch(true, s.decls[k..], off, whole, best),
                         DeclsAt(cfg.lp, s.decls, |s.decls|, off, true),
                         DeclsAt(cfg.lp, s.decls, |s.decls|, off, false))
    decreases s, 1, |s.decls| - k
  {
    if k < |s.decls| {
      var sd := s.decls[k];
      assert s.decls[k..][0] == sd && s.decls[k..][1..] == s.decls[k + 1..] && sd in s.decls && DeclResolvable(sd);
      AlternativeRank(cfg, sd, off, whole, best, DeclsAt(cfg.lp, s.decls, k, off, true),
                      DeclsAt(cfg.lp, s.decls, k, off, false));
      OneMoreDecl(cfg.lp, s.decls, k, off);
      var r := DeclMatch(true, sd, off, whole, best);
      if r.Go? {
        UnionRank(cfg, s, off, whole, k + 1, r.best);
      } else {
        StartAmong(cfg.lp, s.decls, k + 1, off);
      }
    }
  }

  lemma {:induction false} OneMoreDecl(lp: LayoutParam, decls: seq<StructDecl>, k: nat, off: int)
    requires k < |decls|
    ensures forall start: bool ::
      DeclsAt(lp, decls, k + 1, off, start) <==> DeclsAt(lp, decls, k, off, start) || DeclAt(lp, decls[k], off, start)
  {
  }

  /** What starts among the first declarations starts among all of them. */
  lemma {:induction false} StartAmong(lp: LayoutParam, decls: seq<StructDecl>, k: nat, off: int)
    requires k <= |decls|
    ensures forall start: bool :: DeclsAt(lp, decls, k, off, start) ==> DeclsAt(lp, decls, |decls|, off, start)
  {
  }

  lemma {:induction false} AlternativeRank(cfg: Config, sd: StructDecl, off: nat, whole: nat, best: Option<Match>,
                                           starts: bool, covered: bool)
    requires Usable(cfg) && LaidOut(cfg, sd.typ) && DeclResolvable(sd) && Spread(cfg.lp, true, sd)
    requires BestRanked(best, starts, covered)
    ensures SearchRanked(DeclMatch(true, sd, off, whole, best), DeclAt(cfg.lp, sd, off, true),
                         covered || DeclAt(cfg.lp, sd, off, false))
    ensures DeclMatch(true, sd, off, whole, best).Done? ==> DeclAt(cfg.lp, sd, off, true)
    decreases sd, 1
  {
    if off >= sd.size {
      Outside(cfg, true, sd, off);
    } else if sd.declarators == [] {
      UnnamedAlternative(cfg, sd, off, whole, best, starts, covered);
    } else {
      assert sd.declarators[0..] == sd.declarators;
      AlternativesRank(cfg, sd, off, whole, 0, best, covered);
      NamedMembersAt(cfg.lp, sd, off);
    }
  }

  lemma {:induction false} UnnamedAlternative(cfg: Config, sd: StructDecl, off: nat, whole: nat, best: Option<Match>,
                                              starts: bool, covered: bool)
    requires Usable(cfg) && LaidOut(cfg, sd.typ) && DeclResolvable(sd) && sd.declarators == [] && sd.offset == 0
    requires BestRanked(best, starts, covered)
    ensures var r := Tried(true, best, UnnamedMatch(sd.typ, off, whole));
      && SearchRanked(r, DeclAt(cfg.lp, sd, off, true), covered || DeclAt(cfg.lp, sd, off, false))
      && (r.Done? ==> DeclAt(cfg.lp, sd, off, true))
    decreases sd, 0
  {
    UnnamedRank(cfg, sd.typ, off, whole);
    UnnamedAt(cfg.lp, sd, off);
    TriedRanked(best, UnnamedMatch(sd.typ, off, whole), starts, covered, DeclAt(cfg.lp, sd, off, true),
                DeclAt(cfg.lp, sd, off, false));
  }

  lemma {:induction false} UnnamedAt(lp: LayoutParam, sd: StructDecl, off: int)
    requires Sized(lp, sd.typ) && sd.declarators == []
    ensures forall start: bool :: DeclAt(lp, sd, off, start) == LeafAt(lp, sd.typ, false, off - sd.offset, start)
  {
  }

  lemma {:induction false} NamedMembersAt(lp: LayoutParam, sd: StructDecl, off: int)
    requires Sized(lp, sd.typ) && sd.declarators != []
    ensures forall start: bool ::
      DeclAt(lp, sd, off, start) == MembersAt(lp, sd.typ, sd.declarators, |sd.declarators|, off, start)
  {
  }

  lemma {:induction false} Outside(cfg: Config, isUnion: bool, sd: StructDecl, off: int)
    requires Usable(cfg) && LaidOut(cfg, sd.typ) && DeclResolvable(sd) && Spread(cfg.lp, isUnion, sd)
    requires !(sd.offset <= off < sd.offset + sd.size)
    ensures forall start: bool :: !DeclAt(cfg.lp, sd, off, start)
  {
    forall start: bool
      ensures !DeclAt(cfg.lp, sd, off, start)
    {
      if DeclAt(cfg.lp, sd, off, start) {
        DeclInside(cfg, isUnion, sd, off, start);
      }
    }
  }

  lemma {:induction false} AlternativesRank(cfg: Config, sd: StructDecl, off: nat, whole: nat, j: nat,
                                            best: Option<Match>, covered: bool)
    requires Usable(cfg) && LaidOut(cfg, sd.typ) && DeclResolvable(sd) && Spread(cfg.lp, true, sd)
    requires j <= |sd.declarators|
    requires BestRanked(best, MembersAt(cfg.lp, sd.typ, sd.declarators, j, off, true),
                        covered || MembersAt(cfg.lp, sd.typ, sd.declarators, j, off, false))
    ensures var r, n := DeclaratorsMatch(true, sd.typ, sd.declarators[j..], off, whole, best), |sd.declarators|;
      && SearchRanked(r, MembersAt(cfg.lp, sd.typ, sd.declarators, n, off, true),
                      covered || MembersAt(cfg.lp, sd.typ, sd.declarators, n, off, false))
      && (r.Done? ==> MembersAt(cfg.lp, sd.typ, sd.declarators, n, off, true))
    decreases sd.typ, 7, |sd.declarators| - j
  {
    var t, ds := sd.typ, sd.declarators;
    if j < |ds| {
      var d := ds[j];
      assert ds[j..][0] == d && ds[j..][1..] == ds[j + 1..] && d in ds;
      OneMoreMember(cfg.lp, t, ds, j, off);
      var r := Go(best);
      if off < d.size {
        MemberRank(cfg, t, d, off);
        var m := MemberMatch(t, Some(d), off);
        TriedRanked(best, m, MembersAt(cfg.lp, t, ds, j, off, true), covered || MembersAt(cfg.lp, t, ds, j, off, false),
                    NamedAt(cfg.lp, t, d, off, true), NamedAt(cfg.lp, t, d, off, false));
        r := Tried(true, best, m);
      } else {
        MemberOutside(cfg.lp, t, d, off);
      }
      if r.Go? {
        AlternativesRank(cfg, sd, off, whole, j + 1, r.best, covered);
      } else {
        MemberAmong(cfg.lp, t, ds, j + 1, off);
      }
    }
  }

  lemma {:induction false} MemberOutside(lp: LayoutParam, t: TypeSpec, d: Declarator, off: int)
    requires Sized(lp, t) && !(d.offset <= off < d.offset + d.size)
    ensures forall start: bool :: !NamedAt(lp, t, d, off, start)
  {
  }

  lemma {:induction false} OneMoreMember(lp: LayoutParam, t: TypeSpec, ds: seq<Declarator>, j: nat, off: int)
    requires Sized(lp, t) && j < |ds|
    ensures forall start: bool ::
      MembersAt(lp, t, ds, j + 1, off, start)
      <==> MembersAt(lp, t, ds, j, off, start) || NamedAt(lp, t, ds[j], off, start)
  {
  }

  lemma {:induction false} MemberAmong(lp: LayoutParam, t: TypeSpec, ds: seq<Declarator>, j: nat, off: int)
    requires Sized(lp, t) && j <= |ds|
    ensures forall start: bool :: MembersAt(lp, t, ds, j, off, start) ==> MembersAt(lp, t, ds, |ds|, off, start)
  {
  }

  lemma {:induction false} UnnamedRank(cfg: Config, t: TypeSpec, off: nat, whole: nat)
    requires Usable(cfg) && LaidOut(cfg, t) && Unnamed(t) && Resolvable(t)
    ensures Ranked(UnnamedMatch(t, off, whole), LeafAt(cfg.lp, t, false, off, true),
                   LeafAt(cfg.lp, t, false, off, false))
    decreases t, 2
  {
    match t
    case Compound(s) => StructRank(cfg, s, off, whole);
    case TypeRef(td) =>
      UnnamedRank(cfg, td.typ, off, whole);
      UnnamedTypedef(cfg, td, off);
    case _ =>
  }

  /** A typedef without pointer and array has the leaves of its type. */
  lemma {:induction false} UnnamedTypedef(cfg: Config, td: Typedef, off: nat)
    requires Usable(cfg) && LaidOut(cfg, TypeRef(td)) && Resolvable(TypeRef(td)) && Unnamed(TypeRef(td))
    ensures forall start: bool ::
      LeafAt(cfg.lp, TypeRef(td), false, off, start) == LeafAt(cfg.lp, td.typ, false, off, start)
  {
    TypedefDeclared(cfg, td);
    var item := ItemInfo(cfg.lp, td.typ, false).item;
    assert Product(Dims(td.decl)) == 1;
    if off < item {
      ModSmall(off, item);
    } else {
      forall start: bool
        ensures !LeafAt(cfg.lp, td.typ, false, off, start)
      {
        if LeafAt(cfg.lp, td.typ, false, off, start) {
          LeafInside(cfg, td.typ, false, off, start);
        }
      }
    }
  }

  // ----- Structs -----

  lemma {:induction false} DeclsRank(cfg: Config, s: Struct, off: nat, whole: nat, k: nat)
    requires Usable(cfg) && StructLaidOut(cfg, s) && Resolvable(Compound(s)) && !s.isUnion && k <= |s.decls|
    requires DeclsSpread(cfg.lp, false, s.decls, 0, s.size)
    requires !DeclsAt(cfg.lp, s.decls, k, off, true) && !DeclsAt(cfg.lp, s.decls, k, off, false)
    ensures SearchRanked(DeclsMatch(false, s.decls[k..], off, whole, None),
                         DeclsAt(cfg.lp, s.decls, |s.decls|, off, true),
                         DeclsAt(cfg.lp, s.decls, |s.decls|, off, false))
    decreases s, 1, |s.decls| - k
  {
    if k < |s.decls| {
      var sd := s.decls[k];
      assert s.decls[k..][0] == sd && s.decls[k..][1..] == s.decls[k + 1..] && sd in s.decls && DeclResolvable(sd);
      DeclRank(cfg, sd, off, whole);
      OneMoreDecl(cfg.lp, s.decls, k, off);
      var r := DeclMatch(false, sd, off, whole, None);
      if r.Go? {
        DeclsRank(cfg, s, off, whole, k + 1);
      } else {
        NoneLater(cfg, s, off, k);
      }
    }
  }

  /** No later declaration has a leaf at an offset before this one's end. */
  lemma {:induction false} NoneLater(cfg: Config, s: Struct, off: int, k: nat)
    requires Usable(cfg) && StructLaidOut(cfg, s) && Resolvable(Compound(s)) && k < |s.decls|
    requires DeclsSpread(cfg.lp, false, s.decls, 0, s.size) && off < s.decls[k].offset + s.decls[k].size
    ensures forall start: bool ::
      DeclsAt(cfg.lp, s.decls, |s.decls|, off, start) == DeclsAt(cfg.lp, s.decls, k + 1, off, start)
  {
    forall i, start: bool | k < i < |s.decls|
      ensures !DeclAt(cfg.lp, s.decls[i], off, start)
    {
      assert s.decls[i] in s.decls && DeclResolvable(s.decls[i]);
      Outside(cfg, false, s.decls[i], off);
    }
  }

  lemma {:induction false} DeclRank(cfg: Config, sd: StructDecl, off: nat, whole: nat)
    requires Usable(cfg) && LaidOut(cfg, sd.typ) && DeclResolvable(sd) && Spread(cfg.lp, false, sd)
    ensures var r := DeclMatch(false, sd, off, whole, None);
      && SearchRanked(r, DeclAt(cfg.lp, sd, off, true), DeclAt(cfg.lp, sd, off, false))
      && (r.Go? ==> r.best == None) && (r.Done? ==> off < sd.offset + sd.size)
    decreases sd, 1
  {
    if !(sd.offset <= off < sd.offset + sd.size) {
      Outside(cfg, false, sd, off);
    } else if sd.declarators == [] {
      UnnamedDeclRank(cfg, sd, off, whole);
    } else {
      assert sd.declarators[0..] == sd.declarators;
      MembersRank(cfg, sd, off, whole, 0);
      NamedMembersAt(cfg.lp, sd, off);
    }
  }

  lemma {:induction false} UnnamedDeclRank(cfg: Config, sd: StructDecl, off: nat, whole: nat)
    requires Usable(cfg) && LaidOut(cfg, sd.typ) && DeclResolvable(sd) && sd.declarators == []
    requires 0 <= sd.offset <= off
    ensures Ranked(UnnamedMatch(sd.typ, off - sd.offset, whole), DeclAt(cfg.lp, sd, off, true),
                   DeclAt(cfg.lp, sd, off, false))
    decreases sd, 0
  {
    UnnamedRank(cfg, sd.typ, off - sd.offset, whole);
    UnnamedAt(cfg.lp, sd, off);
  }

  lemma {:induction false} MembersRank(cfg: Config, sd: StructDecl, off: nat, whole: nat, j: nat)
    requires Usable(cfg) && LaidOut(cfg, sd.typ) && DeclResolvable(sd) && Spread(cfg.lp, false, sd)
    requires j <= |sd.declarators|
    requires !MembersAt(cfg.lp, sd.typ, sd.declarators, j, off, true)
    requires !MembersAt(cfg.lp, sd.typ, sd.declarators, j, off, false)
    ensures var r := DeclaratorsMatch(false, sd.typ, sd.declarators[j..], off, whole, None);
      var n := |sd.declarators|;
      && SearchRanked(r, MembersAt(cfg.lp, sd.typ, sd.declarators, n, off, true),
                      MembersAt(cfg.lp, sd.typ, sd.declarators, n, off, false))
      && (r.Go? ==> r.best == None)
    decreases sd.typ, 7, |sd.declarators| - j
  {
    var t, ds := sd.typ, sd.declarators;
    if j < |ds| {
      var d := ds[j];
      assert ds[j..][0] == d && ds[j..][1..] == ds[j + 1..] && d in ds;
      OneMoreMember(cfg.lp, t, ds, j, off);
      if off < d.offset + d.size {
        NoMemberLater(cfg.lp, t, ds, j, off, sd.offset, sd.offset + sd.size);
        ThisMember(cfg, sd, off, whole, j);
      } else {
        MemberOutside(cfg.lp, t, d, off);
        MembersRank(cfg, sd, off, whole, j + 1);
      }
    }
  }

  /** The offset is before the end of a member: the search ends with it, or in the padding before it. */
  lemma {:induction false} ThisMember(cfg: Config, sd: StructDecl, off: nat, whole: nat, j: nat)
    requires Usable(cfg) && LaidOut(cfg, sd.typ) && DeclResolvable(sd) && Spread(cfg.lp, false, sd)
    requires j < |sd.declarators| && off < sd.declarators[j].offset + sd.declarators[j].size
    ensures var t, d := sd.typ, sd.declarators[j];
      var r := DeclaratorsMatch(false, t, sd.declarators[j..], off, whole, None);
      r.Done? && Ranked(r.m, NamedAt(cfg.lp, t, d, off, true), NamedAt(cfg.lp, t, d, off, false))
    decreases sd.typ, 6, 0
  {
    var d := sd.declarators[j];
    assert sd.declarators[j..][0] == d && d in sd.declarators;
    if d.offset <= off {
      MemberRank(cfg, sd.typ, d, off);
    } else {
      MemberOutside(cfg.lp, sd.typ, d, off);
    }
  }

  lemma {:induction false} NoMemberLater(lp: LayoutParam, t: TypeSpec, ds: seq<Declarator>, j: nat, off: int, lo: int,
                                         hi: int)
    requires Sized(lp, t) && j < |ds| && MembersSpread(lp, false, t, ds, lo, hi)
    requires off < ds[j].offset + ds[j].size
    ensures forall start: bool :: MembersAt(lp, t, ds, |ds|, off, start) == MembersAt(lp, t, ds, j + 1, off, start)
  {
    forall i, start: bool | j < i < |ds|
      ensures !NamedAt(lp, t, ds[i], off, start)
    {
      MemberOutside(lp, t, ds[i], off);
    }
  }

  // ----- Expressions -----

  /** The same for what a member expression is relative to. */
  ghost predicate InfoAt(lp: LayoutParam, mi: MemberInfo, off: nat, start: bool)
    requires Sized(lp, mi.typ)
  {
    var item := ItemInfo(lp, mi.typ, false).item;
    item > 0 && LeafAt(lp, mi.typ, false, off % item, start)
  }

  lemma {:induction false} ItemRank(cfg: Config, t: TypeSpec, off: nat)
    requires Usable(cfg) && LaidOut(cfg, t) && Resolvable(t) && off < ItemInfo(cfg.lp, t, false).item
    ensures Ranked(MemberMatch(t, None, off), LeafAt(cfg.lp, t, false, off, true), LeafAt(cfg.lp, t, false, off, false))
  {
    TypeMatchIs(t, off);
    if t.TypeRef? {
      TypedefDeclared(cfg, t.typedef);
      TypedefAt(cfg.lp, t.typedef, off);
      AlongRank(cfg, t.typedef.typ, t.typedef.decl, off);
    } else {
      LeafRank(cfg, t, false, off);
    }
  }

  lemma {:induction false} InfoRank(cfg: Config, mi: MemberInfo, off: nat)
    requires Usable(cfg) && InfoOk(cfg, mi) && off < mi.size
    ensures Ranked(InfoMatch(mi, off), InfoAt(cfg.lp, mi, off, true), InfoAt(cfg.lp, mi, off, false))
  {
    var item := ItemInfo(cfg.lp, mi.typ, false).item;
    if mi.decl.Some? && mi.level < |Dims(mi.decl.value)| {
      var dims := Dims(mi.decl.value)[mi.level..];
      IndicesLeave(dims, item, off);
      var r := Indices(dims, mi.size, off).value;
      ItemRank(cfg, mi.typ, r.1);
      RankedAfter(r.0, MemberMatch(mi.typ, None, r.1), InfoAt(cfg.lp, mi, off, true), InfoAt(cfg.lp, mi, off, false));
    } else {
      assert mi.decl.Some? ==> Product(Dims(mi.decl.value)[mi.level..]) == 1;
      ModSmall(off, item);
      ItemRank(cfg, mi.typ, off);
    }
  }

  /** An expression has a plus sign exactly if it ends in an offset. */
  lemma {:induction false} PlusPrinted(ts: seq<Token>)
    requires Printable(ts)
    ensures '+' in PrintAll(ts) <==> !NoOffset(ts)
    decreases |ts|
  {
    if ts != [] {
      TokenPlus(ts[0]);
      assert forall i | 0 <= i < |ts| - 1 :: ts[1..][i] == ts[i + 1];
      PlusPrinted(ts[1..]);
    }
  }

  lemma {:induction false} TokenPlus(t: Token)
    requires t.Id? ==> IsName(t.name)
    ensures '+' in Print(t) <==> t.Off?
  {
    match t
    case Id(name) =>
    case Ix(n) => NoPlus(if n < 0 then 0 - n else n);
    case Off(n) => assert Print(t)[0] == '+';
  }

  lemma {:induction false} NoPlus(v: nat)
    ensures '+' !in Decimal(v)
  {
    if v > 0 {
      DigitsRead(v);
    }
  }

  /** For every laid-out type and every byte of it: the expression is a hit, without an offset, exactly where a leaf
      starts; it says how far into a leaf the byte is everywhere else in one; and what is left is padding. */
  lemma {:induction false} RankExact(cfg: Config, mi: MemberInfo, off: nat)
    requires Usable(cfg) && InfoOk(cfg, mi) && off < mi.size
    ensures var m := InfoMatch(mi, off);
      var starts, covered := InfoAt(cfg.lp, mi, off, true), InfoAt(cfg.lp, mi, off, false);
      && (starts ==> covered) && ('+' in PrintAll(m.tokens) <==> !starts)
      && m.rank == if starts then Hit else if covered then HitOffset else Padding
  {
    var flags := Flags(false, false, false);
    InfoRank(cfg, mi, off);
    match mi.decl {
      case None => TypeLeads(cfg, flags, mi, off);
      case Some(d) => DeclaratorLeads(cfg, flags, mi, d, off);
    }
    PlusPrinted(InfoMatch(mi, off).tokens);
    if InfoAt(cfg.lp, mi, off, true) {
      LeafInside(cfg, mi.typ, false, off % ItemInfo(cfg.lp, mi.typ, false).item, true);
    }
  }
}
