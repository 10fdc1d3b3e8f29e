/**
 Laying out a compound that has already been laid out. The routine does not clear the size a compound
 has, it goes on from there; so everything depends on the size being cleared in between.
 */
module SecondLayout {
  import opened IntegerMemory
  import opened CTypes
  import opened Bitfields
  import opened BitfieldSafety
  import opened Layout
  import opened LayoutLikeness
  import opened LayoutSafety
  import opened UnionLayout

  // ----- What takes room -----

  /** The declarator takes room in a struct. */
  ghost predicate Fills(c: Context, t: TypeSpec, d: Declarator)
    requires Sized(c.lp, t)
  {
    if d.ext.Bitfield? then d.ext.bits > 0 || c.cls.SimpleClass? else TypeInfo(c.lp, t, d).size > 0
  }

  ghost predicate AnyFills(c: Context, t: TypeSpec, ds: seq<Declarator>)
    requires Sized(c.lp, t)
  {
    ds != [] && (AnyFills(c, t, ds[..|ds| - 1]) || Fills(c, t, ds[|ds| - 1]))
  }

  ghost predicate DeclFills(c: Context, sd: StructDecl)
    requires Sized(c.lp, sd.typ)
  {
    if sd.declarators == [] then ItemInfo(c.lp, sd.typ, false).size > 0 else AnyFills(c, sd.typ, sd.declarators)
  }

  ghost predicate AnyDeclFills(c: Context, decls: seq<StructDecl>)
    requires forall sd | sd in decls :: Sized(c.lp, sd.typ)
  {
    decls != [] && (AnyDeclFills(c, decls[..|decls| - 1]) || DeclFills(c, decls[|decls| - 1]))
  }

  // ----- A struct grows from any size -----

  /** A run that started at byte n is at or past it, and past it once something has taken room. */
  ghost predicate Past(c: Context, p: Progress, n: nat, filled: bool) {
    && 8 * n <= Reach(p) && (filled ==> 8 * n < Reach(p))
    && (p.open.Some? && c.cls.SimpleClass? ==> filled)
  }

  lemma {:induction false} BitfieldPast(c: Context, p: Progress, d: Declarator, item: nat, n: nat, filled: bool)
    requires ProgressOk(c, p) && FieldOk(Started(c, 0, 1), d, item) && !c.isUnion && Past(c, p, n, filled)
    ensures Past(c, PlaceBitfield(c, p, d, item).0, n, filled || d.ext.bits > 0 || c.cls.SimpleClass?)
  {
    BitfieldReach(c, p, d, item);
    if d.ext.bits == 0 && c.cls.SimpleClass? && p.open.None? {
      var e := RunEngine(c, p);
      assert e == Simple(Block(c.lp.order, c.limit, p.align, p.size, c.blockSize, 0, 8 * c.blockSize));
    }
  }

  lemma {:induction false} MemberPast(c: Context, p: Progress, size: nat, align: nat, n: nat, filled: bool)
    requires ProgressOk(c, p) && align > 0 && !c.isUnion && Past(c, p, n, filled)
    ensures Past(c, PlaceMember(c, p, size, align).0, n, filled || size > 0)
  {
    FinishReach(c, p);
  }

  lemma {:induction false} DeclaratorPast(c: Context, r: Placed, t: TypeSpec, d: Declarator, n: nat, filled: bool)
    requires ProgressOk(c, r.p) && MemberOk(c, t, d) && ItemInfo(c.lp, t, d.pointer).align > 0
    requires !c.isUnion && Past(c, r.p, n, filled)
    ensures Past(c, PlaceDeclarator(c, r, t, d).p, n, filled || Fills(c, t, d))
  {
    var i := TypeInfo(c.lp, t, d);
    if d.ext.Bitfield? {
      BitfieldPast(c, r.p, d, i.item, n, filled);
    } else {
      MemberPast(c, r.p, i.size, i.align, n, filled);
    }
  }

  lemma {:induction false} DeclaratorsPast(c: Context, p: Progress, t: TypeSpec, ds: seq<Declarator>, n: nat,
                                           filled: bool)
    requires ProgressOk(c, p) && DeclaratorsOk(c, t, ds) && !c.isUnion && Past(c, p, n, filled)
    ensures Past(c, PlaceDeclarators(c, p, t, ds).p, n, filled || AnyFills(c, t, ds))
  {
    if ds != [] {
      var q := PlaceDeclarators(c, p, t, ds[..|ds| - 1]);
      DeclaratorsPast(c, p, t, ds[..|ds| - 1], n, filled);
      DeclaratorPast(c, q, t, ds[|ds| - 1], n, filled || AnyFills(c, t, ds[..|ds| - 1]));
    }
  }

  lemma {:induction false} DeclPast(c: Context, p: Progress, sd: StructDecl, n: nat, filled: bool)
    requires ProgressOk(c, p) && DeclOk(c, sd) && !c.isUnion && Past(c, p, n, filled)
    ensures Past(c, PlaceDecl(c, p, sd).0, n, filled || DeclFills(c, sd))
  {
    if sd.declarators == [] {
      var i := ItemInfo(c.lp, sd.typ, false);
      MemberPast(c, p, i.size, i.align, n, filled);
    } else {
      DeclaratorsPast(c, p, sd.typ, sd.declarators, n, filled);
    }
  }

  lemma {:induction false} DeclsPast(c: Context, p: Progress, decls: seq<StructDecl>, n: nat)
    requires ProgressOk(c, p) && DeclsOk(c, decls) && !c.isUnion && Past(c, p, n, false)
    ensures Past(c, PlaceDecls(c, p, decls).0, n, AnyDeclFills(c, decls))
  {
    if decls != [] {
      var q := PlaceDecls(c, p, decls[..|decls| - 1]);
      DeclsPast(c, p, decls[..|decls| - 1], n);
      DeclPast(c, q.0, decls[|decls| - 1], n, AnyDeclFills(c, decls[..|decls| - 1]));
    }
  }

  /** From whatever size it starts, a struct with something in it ends larger. */
  lemma {:induction false} StructGrows(cfg: Config, s: Struct)
    requires Usable(cfg) && DeclsOk(ContextOf(cfg, s), s.decls) && !s.isUnion
    requires AnyDeclFills(ContextOf(cfg, s), s.decls)
    ensures PlaceStruct(cfg, s).size > s.size
  {
    var c := ContextOf(cfg, s);
    DeclsPast(c, Resumed(cfg, s), s.decls, s.size);
    FinishReach(c, PlaceDecls(c, Resumed(cfg, s), s.decls).0);
  }

  // ----- A struct with nothing in it stays empty -----

  /** Nothing has taken room. */
  ghost predicate Still(p: Progress) {
    match p.open
    case None => p.size == 0
    case Some(Generic(u)) => u.offset == 0 && u.bitOffset == 0
    case Some(Microsoft(u)) => u.offset == 0 && u.bitOffset == 0
    case Some(Simple(_)) => false
  }

  lemma {:induction false} BitfieldStill(c: Context, p: Progress, d: Declarator, item: nat)
    requires ProgressOk(c, p) && FieldOk(Started(c, 0, 1), d, item) && !c.isUnion && Still(p)
    requires d.ext.bits == 0 && !c.cls.SimpleClass?
    ensures Still(PlaceBitfield(c, p, d, item).0)
  {
    var e := RunEngine(c, p);
    PushLands(e, d, item);
    if e.Generic? {
      PushHere(e.unit, d, item);
    }
  }

  lemma {:induction false} MemberStill(c: Context, p: Progress, align: nat)
    requires ProgressOk(c, p) && align > 0 && !c.isUnion && Still(p)
    ensures Still(PlaceMember(c, p, 0, align).0)
  {
    assert Finished(p).size == 0;
  }

  lemma {:induction false} DeclaratorStill(c: Context, r: Placed, t: TypeSpec, d: Declarator)
    requires ProgressOk(c, r.p) && MemberOk(c, t, d) && ItemInfo(c.lp, t, d.pointer).align > 0
    requires !c.isUnion && Still(r.p) && !Fills(c, t, d)
    ensures Still(PlaceDeclarator(c, r, t, d).p)
  {
    if d.ext.Bitfield? {
      BitfieldStill(c, r.p, d, TypeInfo(c.lp, t, d).item);
    } else {
      MemberStill(c, r.p, TypeInfo(c.lp, t, d).align);
    }
  }

  lemma {:induction false} DeclaratorsStill(c: Context, p: Progress, t: TypeSpec, ds: seq<Declarator>)
    requires ProgressOk(c, p) && DeclaratorsOk(c, t, ds) && !c.isUnion && Still(p) && !AnyFills(c, t, ds)
    ensures Still(PlaceDeclarators(c, p, t, ds).p)
  {
    if ds != [] {
      DeclaratorsStill(c, p, t, ds[..|ds| - 1]);
      DeclaratorStill(c, PlaceDeclarators(c, p, t, ds[..|ds| - 1]), t, ds[|ds| - 1]);
    }
  }

  lemma {:induction false} DeclStill(c: Context, p: Progress, sd: StructDecl)
    requires ProgressOk(c, p) && DeclOk(c, sd) && !c.isUnion && Still(p) && !DeclFills(c, sd)
    ensures Still(PlaceDecl(c, p, sd).0)
  {
    if sd.declarators == [] {
      MemberStill(c, p, ItemInfo(c.lp, sd.typ, false).align);
    } else {
      DeclaratorsStill(c, p, sd.typ, sd.declarators);
    }
  }

  lemma {:induction false} DeclsStill(c: Context, p: Progress, decls: seq<StructDecl>)
    requires ProgressOk(c, p) && DeclsOk(c, decls) && !c.isUnion && Still(p) && !AnyDeclFills(c, decls)
    ensures Still(PlaceDecls(c, p, decls).0)
  {
    if decls != [] {
      DeclsStill(c, p, decls[..|decls| - 1]);
      DeclStill(c, PlaceDecls(c, p, decls[..|decls| - 1]).0, decls[|decls| - 1]);
    }
  }

  lemma {:induction false} StructEmpty(cfg: Config, s: Struct)
    requires Usable(cfg) && DeclsOk(ContextOf(cfg, s), s.decls) && !s.isUnion && s.size == 0
    requires !AnyDeclFills(ContextOf(cfg, s), s.decls)
    ensures PlaceStruct(cfg, s).size == 0
  {
    DeclsStill(ContextOf(cfg, s), Resumed(cfg, s), s.decls);
    StillFinished(PlaceDecls(ContextOf(cfg, s), Resumed(cfg, s), s.decls).0);
  }

  lemma {:induction false} StillFinished(p: Progress)
    requires Still(p)
    ensures Finished(p).size == 0
  {
  }

  // ----- Unions -----

  lemma {:induction false} AlignTaken(c: Context, p: Progress, n: nat, xs: seq<Alternative>)
    ensures TakeAll(c, p, xs).align == TakeAll(c, p.(size := n), xs).align
  {
    if xs != [] {
      AlignTaken(c, p, n, xs[..|xs| - 1]);
    }
  }

  lemma RoundedUp(n: nat, align: nat)
    requires align > 0
    ensures RoundUp(RoundUp(n, align), align) == RoundUp(n, align)
  {
    if n % align > 0 {
      Bits.DivModUnique(n + (align - n % align), align, n / align + 1, 0);
    }
  }

  /** A union keeps size and alignment. */
  lemma {:induction false} UnionStays(cfg: Config, s: Struct)
    requires Usable(cfg) && DeclsOk(ContextOf(cfg, s), s.decls) && s.isUnion && s.size == 0
    ensures var r, q := PlaceStruct(cfg, s), PlaceStruct(cfg, s.(size := PlaceStruct(cfg, s).size));
      q.size == r.size && q.align == r.align
  {
    var c, xs, r := ContextOf(cfg, s), OfDecls(ContextOf(cfg, s), s.decls), PlaceStruct(cfg, s);
    UnionCoversExact(cfg, s);
    UnionCoversExact(cfg, s.(size := r.size));
    AlignTaken(c, Resumed(cfg, s), r.size, xs);
    RoundedUp(MaxBytes(xs[LastField(xs)..]), r.align);
  }

  // ----- The second run -----

  /** A second run computes what the first one did if the size has been cleared. If not, it computes the same
      size exactly for unions and for structs of size 0. */
  lemma {:induction false} SecondRun(cfg: Config, s: Struct)
    requires Usable(cfg) && DeclsOk(ContextOf(cfg, s), s.decls) && s.size == 0
    ensures var r := PlaceStruct(cfg, s);
      && DeclsOk(ContextOf(cfg, r), r.decls)
      && PlaceStruct(cfg, r.(size := 0)) == r
      && (PlaceStruct(cfg, r).size == r.size <==> s.isUnion || r.size == 0)
      && (!s.isUnion ==> (PlaceStruct(cfg, r) == r <==> r.size == 0))
  {
    var r := PlaceStruct(cfg, s);
    DeclsKeep(ContextOf(cfg, s), Resumed(cfg, s), s.decls);
    StructAlike(cfg, s, r.(size := 0));
    StructAlike(cfg, s.(size := r.size), r);
    if s.isUnion {
      UnionStays(cfg, s);
    } else if AnyDeclFills(ContextOf(cfg, s), s.decls) {
      StructGrows(cfg, s.(size := r.size));
    } else {
      StructEmpty(cfg, s);
    }
  }

  // ----- Without clearing -----

  /** `struct { int a; }`, with whatever offset and sizes a and the struct have been given. */
  function OneInt(offset: int, size: nat): Struct {
    var a := Declarator("a", false, Plain, offset, 4, 4, None);
    Struct(false, 0, [StructDecl(Basic({INT}), [a], offset, 4)], 4, size, None)
  }

  ghost predicate IntConfig(cfg: Config) {
    Usable(cfg) && cfg.lp.sizes.intSize == 4 && cfg.lp.alignment == 4 && cfg.lp.compoundAlignment == 1
  }

  lemma {:induction false} OneIntPlaced(cfg: Config, offset: int, size: nat)
    requires IntConfig(cfg)
    ensures var s := OneInt(offset, size);
      DeclsOk(ContextOf(cfg, s), s.decls) && PlaceStruct(cfg, s) == OneInt(RoundUp(size, 4), RoundUp(size, 4) + 4)
  {
    var s, n := OneInt(offset, size), RoundUp(size, 4);
    var c, p, sd := ContextOf(cfg, s), Resumed(cfg, s), s.decls[0];
    var d := sd.declarators[0];
    assert TypeInfo(cfg.lp, sd.typ, d) == Info(4, 4, 4, true);
    assert DeclOk(c, sd);
    OneDeclarator(c, p, sd.typ, d);
    var q := PlaceMember(c, p, 4, 4);
    assert q == (Progress(n + 4, 4, None), n);
    assert PlaceDeclarators(c, p, sd.typ, [d])
        == Placed(q.0, [d.(offset := n, size := 4, itemSize := 4)], n);
    assert sd.declarators == [d];
    assert PlaceDecl(c, p, sd) == (Progress(n + 4, 4, None), OneInt(n, n + 4).decls[0]);
    OneDecl(c, p, sd);
    assert s.decls == [sd];
  }

  lemma {:induction false} OneDeclarator(c: Context, p: Progress, t: TypeSpec, d: Declarator)
    requires ProgressOk(c, p) && DeclaratorsOk(c, t, [d])
    ensures PlaceDeclarators(c, p, t, [d]) == PlaceDeclarator(c, Placed(p, [], if c.isUnion then 0 else -1), t, d)
  {
    assert [d][..0] == [] && d in [d];
    assert PlaceDeclarators(c, p, t, []) == Placed(p, [], if c.isUnion then 0 else -1);
  }

  lemma {:induction false} OneDecl(c: Context, p: Progress, sd: StructDecl)
    requires ProgressOk(c, p) && DeclOk(c, sd)
    ensures DeclsOk(c, [sd]) && PlaceDecls(c, p, [sd]) == (PlaceDecl(c, p, sd).0, [PlaceDecl(c, p, sd).1])
  {
    var sds := [sd];
    assert sds[..|sds| - 1] == [] && sds[|sds| - 1] == sd;
    assert DeclsOk(c, sds);
    var q := PlaceDecls(c, p, sds[..|sds| - 1]);
    assert q == (p, []);
    assert q.1 + [PlaceDecl(c, p, sd).1] == [PlaceDecl(c, p, sd).1];
  }

  /** A second run without clearing moves a to offset 4 and makes the struct 8 bytes long. */
  lemma {:induction false} IntMoves(cfg: Config)
    requires IntConfig(cfg)
    ensures DeclsOk(ContextOf(cfg, OneInt(-1, 0)), OneInt(-1, 0).decls)
    ensures var first := PlaceStruct(cfg, OneInt(-1, 0));
      && first == OneInt(0, 4) && DeclsOk(ContextOf(cfg, first), first.decls)
      && PlaceStruct(cfg, first) == OneInt(4, 8)
  {
    OneIntPlaced(cfg, -1, 0);
    OneIntPlaced(cfg, 0, 4);
  }
}
