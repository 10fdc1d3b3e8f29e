/**
 Arrays of pointers. The routine that prints an expression takes the type without its declarator, so
 inside an array of pointers it goes on into what the pointers point to; the lookup does not follow.
 */
module MemberPointers {
  import opened Walker
  import opened CTypes
  import opened Layout
  import opened MemberStrings
  import opened MemberLookup
  import opened MemberRoundTrip

  /** Members of compounds have names, and typedefs no offsets. */
  ghost predicate Spelled(t: TypeSpec) {
    match t
    case TypeRef(td) => td.decl.offset <= 0 && (!td.decl.pointer ==> Spelled(td.typ))
    case Compound(s) => forall sd | sd in s.decls :: SpelledDecl(sd)
    case _ => true
  }

  ghost predicate SpelledDecl(sd: StructDecl) {
    && (sd.declarators == [] ==> Spelled(sd.typ))
    && forall d | d in sd.declarators :: d.name != []
  }

  predicate IsPrinted(m: Match) {
    m.rank != NoMatch && m.rank != Fatal
  }

  // ----- What is printed for a type -----

  /** Nothing, an offset that counts from the start, or a member or an index first. */
  ghost predicate Shaped(m: Match, whole: nat) {
    IsPrinted(m) ==> (m.tokens == [] && whole == 0) || m.tokens == [Off(whole)] || (m.tokens != [] && !m.tokens[0].Off?)
  }

  ghost predicate ShapedBest(best: Option<Match>, whole: nat) {
    best.Some? ==> Shaped(best.value, whole)
  }

  ghost predicate ShapedSearch(r: Search, whole: nat) {
    match r case Done(m) => Shaped(m, whole) case Go(best) => ShapedBest(best, whole)
  }

  lemma {:induction false} IndicesFirst(dims: seq<nat>, size: nat, off: nat)
    ensures var r := Indices(dims, size, off);
      r.Some? ==> if dims == [] then r.value == ([], off) else r.value.0 != [] && r.value.0[0].Ix?
  {
  }

  lemma {:induction false} AlongShaped(t: TypeSpec, d: Declarator, off: nat)
    requires !d.pointer ==> Spelled(t)
    ensures Shaped(Along(t, d, off), off)
    decreases t, 3
  {
    if d.size >= 0 {
      IndicesFirst(Dims(d), d.size, off);
      var r := Indices(Dims(d), d.size, off);
      if r.Some? && Dims(d) == [] {
        if d.pointer || !t.TypeRef? {
          LeafShaped(t, d.pointer, off);
          Unprefixed(LeafMatch(t, d.pointer, off));
        } else {
          OnwardShaped(t.typedef.typ, t.typedef.decl, off);
          Unprefixed(Onward(t.typedef.typ, t.typedef.decl, off));
        }
      }
    }
  }

  lemma {:induction false} Unprefixed(m: Match)
    ensures After([], m) == m
  {
    assert [] + m.tokens == m.tokens;
  }

  lemma {:induction false} OnwardShaped(t: TypeSpec, d: Declarator, off: nat)
    requires !d.pointer ==> Spelled(t)
    ensures Shaped(Onward(t, d, off), off)
    decreases t, 4
  {
    if !d.pointer && t.TypeRef? && !d.ext.Array? {
      OnwardShaped(t.typedef.typ, t.typedef.decl, off);
    } else {
      AlongShaped(t, d, off);
    }
  }

  lemma {:induction false} LeafShaped(t: TypeSpec, pointer: bool, off: nat)
    requires !pointer ==> Spelled(t)
    ensures Shaped(LeafMatch(t, pointer, off), off)
    decreases t, 2
  {
    if !pointer && t.Compound? {
      StructShaped(t.body, off, off);
    }
  }

  lemma {:induction false} StructShaped(s: Struct, off: nat, whole: nat)
    requires Spelled(Compound(s))
    ensures Shaped(StructMatch(s, off, whole), whole)
    decreases s
  {
    DeclsShaped(s.isUnion, s.decls, off, whole, None);
  }

  lemma {:induction false} DeclsShaped(isUnion: bool, decls: seq<StructDecl>, off: nat, whole: nat, best: Option<Match>)
    requires (forall sd | sd in decls :: SpelledDecl(sd)) && ShapedBest(best, whole)
    ensures ShapedSearch(DeclsMatch(isUnion, decls, off, whole, best), whole)
    decreases decls
  {
    if decls != [] {
      var r := DeclMatch(isUnion, decls[0], off, whole, best);
      DeclShaped(isUnion, decls[0], off, whole, best);
      if r.Go? {
        DeclsShaped(isUnion, decls[1..], off, whole, r.best);
      }
    }
  }

  lemma {:induction false} DeclShaped(isUnion: bool, sd: StructDecl, off: nat, whole: nat, best: Option<Match>)
    requires SpelledDecl(sd) && ShapedBest(best, whole)
    ensures ShapedSearch(DeclMatch(isUnion, sd, off, whole, best), whole)
    decreases sd
  {
    if sd.offset <= off < sd.offset + sd.size {
      if sd.declarators != [] {
        DeclaratorsShaped(isUnion, sd.typ, sd.declarators, off, whole, best);
      } else {
        UnnamedShaped(sd.typ, if isUnion then off else off - sd.offset, whole);
      }
    }
  }

  lemma {:induction false} DeclaratorsShaped(isUnion: bool, t: TypeSpec, ds: seq<Declarator>, off: nat, whole: nat,
                                             best: Option<Match>)
    requires (forall d | d in ds :: d.name != []) && ShapedBest(best, whole)
    ensures ShapedSearch(DeclaratorsMatch(isUnion, t, ds, off, whole, best), whole)
    decreases t, 6, |ds|
  {
    if ds != [] && ds[0].offset <= off {
      if off < ds[0].offset + ds[0].size {
        assert MemberMatch(t, Some(ds[0]), off).tokens[0] == Id(ds[0].name);
      }
      var r := if off < ds[0].offset + ds[0].size then Tried(isUnion, best, MemberMatch(t, Some(ds[0]), off))
        else Go(best);
      if r.Go? {
        DeclaratorsShaped(isUnion, t, ds[1..], off, whole, r.best);
      }
    }
  }

  lemma {:induction false} UnnamedShaped(t: TypeSpec, off: nat, whole: nat)
    requires Spelled(t)
    ensures Shaped(UnnamedMatch(t, off, whole), whole)
    decreases t, 2
  {
    match t
    case Compound(s) => StructShaped(s, off, whole);
    case TypeRef(td) => if !td.decl.pointer { UnnamedShaped(td.typ, off, whole); }
    case _ =>
  }

  lemma {:induction false} TypeShaped(t: TypeSpec, off: nat)
    requires Spelled(t)
    ensures Shaped(MemberMatch(t, None, off), off)
  {
    match t
    case TypeRef(td) => AlongShaped(td.typ, td.decl, off);
    case _ => LeafShaped(t, false, off);
  }

  // ----- Looking it up -----

  /** A place where all dimensions of a pointer declarator are indexed. */
  ghost predicate AtPointer(q: Place, d: Declarator) {
    q.decl == Some(d) && d.pointer && q.level == |Dims(d)|
  }

  lemma {:induction false} DotReads(u: string, startup: bool)
    requires u != [] && u[0] == '.'
    ensures var w := ReadToken(u, startup).0; !w.End? && !w.OffsetBy? && !w.ArrayIndex?
  {
  }

  /** From a pointer only an offset leads on. */
  lemma {:induction false} PointerEnds(flags: Flags, q: Place, d: Declarator, ts: seq<Token>, startup: bool)
    requires AtPointer(q, d) && !flags.rejectOffset
    ensures ts == [] ==> Lookup(flags, q, PrintAll(ts), startup) == Found(q)
    ensures forall k: nat :: ts == [Off(k)] ==>
      Lookup(flags, q, PrintAll(ts), startup) == Found(q.(offset := q.offset + k))
    ensures ts != [] && !ts[0].Off? ==> Lookup(flags, q, PrintAll(ts), startup).Failed?
  {
    if ts != [] {
      if ts[0].Off? {
        if ts == [ts[0]] {
          PointerOffset(flags, q, d, ts[0].offset, startup);
        }
      } else {
        PointerStops(flags, q, d, ts, startup);
      }
    }
  }

  lemma {:induction false} PointerStops(flags: Flags, q: Place, d: Declarator, ts: seq<Token>, startup: bool)
    requires AtPointer(q, d) && ts != [] && !ts[0].Off?
    ensures Lookup(flags, q, PrintAll(ts), startup).Failed?
  {
    var rest := PrintAll(ts[1..]);
    match ts[0]
    case Id(name) => DotReads(PrintAll(ts), startup);
    case Ix(n) => ReadIx(n, rest, startup);
    case Off(k) =>
  }

  lemma {:induction false} PointerOffset(flags: Flags, q: Place, d: Declarator, k: nat, startup: bool)
    requires AtPointer(q, d) && !flags.rejectOffset
    ensures Lookup(flags, q, PrintAll([Off(k)]), startup) == Found(q.(offset := q.offset + k))
  {
    var ts := [Off(k)];
    WalkPrinted(ts, startup);
    LookupIsResolve(flags, q, PrintAll(ts), startup, ts);
    assert ts[1..] == [];
  }

  lemma {:induction false} FirstPrinted(ts: seq<Token>, u: string)
    requires ts != [] && Follows(u)
    ensures PrintAll(ts) + u == Print(ts[0]) + (PrintAll(ts[1..]) + u) && Follows(PrintAll(ts[1..]) + u)
  {
    StringsAssociate(Print(ts[0]), PrintAll(ts[1..]), u);
    if ts[1..] != [] {
      assert (PrintAll(ts[1..]) + u)[0] == Print(ts[1])[0];
    }
  }

  lemma StringsAssociate(a: string, b: string, c: string)
    ensures (a + b) + c == a + (b + c)
  {
  }

  /** An index is read, and then the rest. */
  lemma {:induction false} IndexRead(flags: Flags, p: Place, n: int, rest: string, startup: bool)
    requires Follows(rest)
    ensures var flags' := flags.(acceptDotless := false);
      var r := Step(flags', p, ArrayIndex(n));
      Lookup(flags, p, Print(Ix(n)) + rest, startup) == if r.Failed? then r else Lookup(flags', r.place, rest, false)
  {
    ReadPrinted(Ix(n), rest, startup);
    assert Step(flags, p, ArrayIndex(n)) == Step(flags.(acceptDotless := false), p, ArrayIndex(n));
  }

  /** Indices that lead from p to q are read first. */
  lemma {:induction false} IndicesRead(flags: Flags, p: Place, q: Place, ts: seq<Token>, u: string, startup: bool)
    requires AllIx(ts) && ts != [] && Follows(u) && Resolve(flags.(acceptDotless := false), p, ts) == Found(q)
    ensures Lookup(flags, p, PrintAll(ts) + u, startup) == Lookup(flags.(acceptDotless := false), q, u, false)
    decreases |ts|
  {
    FirstPrinted(ts, u);
    IndexRead(flags, p, ts[0].index, PrintAll(ts[1..]) + u, startup);
    var flags' := flags.(acceptDotless := false);
    var r := Step(flags', p, WalkOf(ts[0]));
    if ts[1..] == [] {
      assert PrintAll(ts[1..]) + u == u;
    } else {
      IndicesRead(flags', r.place, q, ts[1..], u, false);
    }
  }

  // ----- The round trip -----

  /** A pointer, or an array of pointers of which some dimensions are indexed. */
  ghost predicate PointerOk(cfg: Config, mi: MemberInfo)
    requires Usable(cfg)
  {
    && Sized(cfg.lp, mi.typ) && Spelled(mi.typ)
    && mi.decl.Some? && var d := mi.decl.value;
    && d.pointer && DimsOk(d) && !d.ext.Bitfield? && d.size == TypeInfo(cfg.lp, mi.typ, d).size
    && mi.level <= |Dims(d)| && mi.size == PointerSize(cfg.lp) * Product(Dims(d)[mi.level..])
  }

  /** After the first n tokens comes a member or an index. */
  predicate Enters(ts: seq<Token>, n: nat) {
    |ts| > n && !ts[n].Off?
  }

  /** An expression is printed for the offset, and looking it up gives the offset. */
  ghost predicate RoundTrips(flags: Flags, mi: MemberInfo, off: nat) {
    var m := InfoMatch(mi, off);
    IsPrinted(m) && var r := MemberAt(flags, mi, PrintAll(m.tokens)); r.Found? && r.place.offset == off
  }

  lemma {:induction false} IndexCount(dims: seq<nat>, size: nat, off: nat)
    ensures var r := Indices(dims, size, off); r.Some? ==> |r.value.0| == |dims|
    decreases |dims|
  {
    if dims != [] && dims[0] != 0 && size / dims[0] != 0 {
      var item := size / dims[0];
      Bits.DivMod(off, item);
      IndexCount(dims[1..], item, off - off / item * item);
    }
  }

  /** For pointers, the expression leads back if and only if it does not go on into what they point to. */
  lemma {:induction false} PointerRoundTrip(cfg: Config, flags: Flags, mi: MemberInfo, off: nat)
    requires Usable(cfg) && PointerOk(cfg, mi) && off < mi.size && !flags.rejectOffset
    ensures var m := InfoMatch(mi, off);
      RoundTrips(flags, mi, off) <==> IsPrinted(m) && !Enters(m.tokens, |Dims(mi.decl.value)| - mi.level)
  {
    var d, item := mi.decl.value, PointerSize(cfg.lp);
    PointerStart(cfg, mi);
    var p := StartPlace(mi).value;
    if mi.level < |Dims(d)| {
      PointerIndices(flags, p, d, item, mi, off);
    } else {
      assert Product(Dims(d)[mi.level..]) == 1;
      TypeShaped(mi.typ, off);
      PointerEnds(flags, p, d, MemberMatch(mi.typ, None, off).tokens, true);
    }
  }

  lemma {:induction false} PointerStart(cfg: Config, mi: MemberInfo)
    requires Usable(cfg) && PointerOk(cfg, mi)
    ensures StartPlace(mi) == Some(Place(mi.typ, mi.decl, mi.level, mi.size, 0))
    ensures InArray(StartPlace(mi).value, mi.decl.value, PointerSize(cfg.lp))
  {
    var d, item := mi.decl.value, PointerSize(cfg.lp);
    assert ItemInfo(cfg.lp, mi.typ, d.pointer).item == item && d.size == item * Product(Dims(d));
    DividedIs(Dims(d), mi.level, item);
    assert mi.level == 0 ==> Dims(d)[0..] == Dims(d);
  }

  /** The dimensions that are not yet indexed. */
  lemma {:induction false} PointerIndices(flags: Flags, p: Place, d: Declarator, item: nat, mi: MemberInfo, off: nat)
    requires p == Place(mi.typ, Some(d), mi.level, mi.size, 0) && InArray(p, d, item) && mi.decl == Some(d)
    requires d.pointer && mi.level < |Dims(d)| && off < mi.size && Spelled(mi.typ) && !flags.rejectOffset
    ensures var m := InfoMatch(mi, off);
      var r := Lookup(flags, p, PrintAll(m.tokens), true);
      (IsPrinted(m) && r.Found? && r.place.offset == off) <==> IsPrinted(m) && !Enters(m.tokens, |Dims(d)| - mi.level)
  {
    var dims := Dims(d)[mi.level..];
    IndicesLead(flags.(acceptDotless := false), p, d, item, off);
    IndicesAreIx(dims, mi.size, off);
    IndexCount(dims, mi.size, off);
    var r := Indices(dims, mi.size, off).value;
    var q := p.(level := |Dims(d)|, size := item, offset := off - r.1);
    PointerTail(flags, p, q, d, r.0, mi.typ, r.1);
  }

  lemma {:induction false} PointerTail(flags: Flags, p: Place, q: Place, d: Declarator, ts: seq<Token>, t: TypeSpec,
                                       off: nat)
    requires AtPointer(q, d) && Spelled(t) && !flags.rejectOffset && ts != [] && AllIx(ts)
    requires Resolve(flags.(acceptDotless := false), p, ts) == Found(q)
    ensures var m := After(ts, MemberMatch(t, None, off));
      var r := Lookup(flags, p, PrintAll(m.tokens), true);
      (IsPrinted(m) && r.Found? && r.place.offset == q.offset + off) <==> IsPrinted(m) && !Enters(m.tokens, |ts|)
  {
    var rest := MemberMatch(t, None, off);
    TypeShaped(t, off);
    PrintAppend(ts, rest.tokens);
    assert Follows(PrintAll(rest.tokens));
    IndicesRead(flags, p, q, ts, PrintAll(rest.tokens), true);
    PointerEnds(flags.(acceptDotless := false), q, d, rest.tokens, false);
    assert rest.tokens != [] ==> (ts + rest.tokens)[|ts|] == rest.tokens[0];
  }

  /** The round trip for everything a member expression can be relative to: it fails exactly where an
      expression relative to pointers goes on into what they point to, or none is printed. */
  lemma {:induction false} RoundTripExact(cfg: Config, flags: Flags, mi: MemberInfo, off: nat)
    requires Usable(cfg) && (InfoOk(cfg, mi) || PointerOk(cfg, mi)) && off < mi.size && !flags.rejectOffset
    ensures var m := InfoMatch(mi, off);
      RoundTrips(flags, mi, off)
      <==> !(mi.decl.Some? && mi.decl.value.pointer)
           || (IsPrinted(m) && !Enters(m.tokens, |Dims(mi.decl.value)| - mi.level))
  {
    if mi.decl.Some? && mi.decl.value.pointer {
      PointerRoundTrip(cfg, flags, mi, off);
    } else {
      RoundTrip(cfg, flags, mi, off);
    }
  }

  // ----- Where it goes wrong -----

  const X := Declarator("x", false, Plain, 0, 4, 4, None)

  /** `struct foo { int x; };` */
  const Foo := Struct(false, 0, [StructDecl(Basic({INT}), [X], 0, 4)], 4, 4, None)

  /** `struct foo *p[3];` with pointers of eight bytes. */
  const Pointers := Declarator("p", true, Array([3]), 0, 24, 8, None)

  lemma {:induction false} OneIndex(dim: nat, size: nat, off: nat)
    requires dim > 0 && size / dim > 0
    ensures var item := size / dim;
      var r := Indices([dim], size, off);
      r.Some? && r.value.0 == [Ix(off / item)] && r.value.1 == off - off / item * item
  {
    var item := size / dim;
    Bits.DivMod(off, item);
    var rest: nat := off - off / item * item;
    assert [dim][1..] == [] && Indices([], item, rest) == Some(([], rest));
    assert [Ix(off / item)] + [] == [Ix(off / item)];
  }

  lemma {:induction false} FooMatch()
    ensures MemberMatch(Compound(Foo), None, 0) == Match(Hit, [Id("x")])
  {
    assert Indices([], 4, 0) == Some(([], 0));
    assert Along(Basic({INT}), X, 0) == After([], Match(Hit, []));
    assert MemberMatch(Basic({INT}), Some(X), 0) == Match(Hit, [Id("x")]);
    assert DeclaratorsMatch(false, Basic({INT}), [X], 0, 0, None) == Done(Match(Hit, [Id("x")]));
    assert DeclMatch(false, Foo.decls[0], 0, 0, None) == Done(Match(Hit, [Id("x")]));
    assert DeclsMatch(false, Foo.decls, 0, 0, None) == Done(Match(Hit, [Id("x")]));
    assert StructMatch(Foo, 0, 0) == Match(Hit, [Id("x")]);
    assert LeafMatch(Compound(Foo), false, 0) == StructMatch(Foo, 0, 0);
  }

  /** For offset 0, `[0].x` is printed, which the lookup rejects. */
  lemma {:induction false} FooFails(cfg: Config, flags: Flags)
    requires Usable(cfg) && cfg.lp.sizes.ptrSize == 8 && !flags.rejectOffset
    ensures var mi := MemberInfo(Compound(Foo), Some(Pointers), 0, 24);
      && PointerOk(cfg, mi)
      && InfoMatch(mi, 0) == Match(Hit, [Ix(0), Id("x")])
      && !RoundTrips(flags, mi, 0)
  {
    var mi := MemberInfo(Compound(Foo), Some(Pointers), 0, 24);
    assert Dims(Pointers) == [3] && [3][0..] == [3] && [3][1..] == [];
    assert Product([3]) == 3;
    OneIndex(3, 24, 0);
    FooMatch();
    assert [Ix(0)] + [Id("x")] == [Ix(0), Id("x")];
    PointerRoundTrip(cfg, flags, mi, 0);
  }
}
