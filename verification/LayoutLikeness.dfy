/**
 What a layout depends on. Declarators that differ only in what an earlier layout left in them are
 placed alike, so laying out a finished compound again changes nothing.
 */
module LayoutLikeness {
  import opened CTypes
  import opened Bitfields
  import opened BitfieldSafety
  import opened Layout

  /** A declarator without its place; fields of width zero never get one. */
  function Bare(d: Declarator): Declarator {
    if !d.ext.Bitfield? then d.(offset := 0, size := 0, itemSize := 0)
    else if d.ext.bits == 0 then d
    else d.(offset := 0, size := 0, ext := Bitfield(d.ext.bits, 0, 0))
  }

  function AllBare(ds: seq<Declarator>): (r: seq<Declarator>)
    ensures |r| == |ds|
  {
    if ds == [] then [] else AllBare(ds[..|ds| - 1]) + [Bare(ds[|ds| - 1])]
  }

  function BareDecl(sd: StructDecl): StructDecl {
    StructDecl(sd.typ, AllBare(sd.declarators), 0, 0)
  }

  function BareDecls(decls: seq<StructDecl>): (r: seq<StructDecl>)
    ensures |r| == |decls|
  {
    if decls == [] then [] else BareDecls(decls[..|decls| - 1]) + [BareDecl(decls[|decls| - 1])]
  }

  lemma {:induction false} BareDeclsAt(decls: seq<StructDecl>, i: nat)
    requires i < |decls|
    ensures BareDecls(decls)[i] == BareDecl(decls[i])
  {
    if i < |decls| - 1 {
      BareDeclsAt(decls[..|decls| - 1], i);
    }
  }

  lemma SameParts<T>(a: seq<T>, x: T, b: seq<T>, y: T)
    requires a + [x] == b + [y]
    ensures a == b && x == y
  {
    assert (a + [x])[|a|] == x && (b + [y])[|b|] == y && |a| == |b|;
    assert (a + [x])[..|a|] == a && (b + [y])[..|b|] == b;
  }

  lemma LastAmong<T>(xs: seq<T>)
    requires xs != []
    ensures forall x | x in xs :: x in xs[..|xs| - 1] || x == xs[|xs| - 1]
  {
  }

  // ----- Placing keeps all but the place -----

  lemma {:induction false} PushKeeps(e: Engine, d: Declarator, typeSize: nat)
    requires PushFits(e, d, typeSize, typeSize) && d.ext.bits <= 8 * typeSize
    ensures var p := PushField(e, d, typeSize, typeSize); p.Some? && Bare(p.value.1) == Bare(d)
  {
  }

  lemma {:induction false} DeclaratorKeeps(c: Context, r: Placed, t: TypeSpec, d: Declarator)
    requires ProgressOk(c, r.p) && MemberOk(c, t, d) && ItemInfo(c.lp, t, d.pointer).align > 0
    ensures var q := PlaceDeclarator(c, r, t, d);
      |q.decls| == |r.decls| + 1 && q.decls == r.decls + [q.decls[|r.decls|]] && Bare(q.decls[|r.decls|]) == Bare(d)
  {
    if d.ext.Bitfield? {
      var item := TypeInfo(c.lp, t, d).item;
      PushLands(RunEngine(c, r.p), d, item);
      PushKeeps(RunEngine(c, r.p), d, item);
    }
  }

  lemma {:induction false} DeclaratorsKeep(c: Context, p: Progress, t: TypeSpec, ds: seq<Declarator>)
    requires ProgressOk(c, p) && DeclaratorsOk(c, t, ds)
    ensures AllBare(PlaceDeclarators(c, p, t, ds).decls) == AllBare(ds)
  {
    if ds != [] {
      DeclaratorsKeep(c, p, t, ds[..|ds| - 1]);
      var q := PlaceDeclarators(c, p, t, ds[..|ds| - 1]);
      DeclaratorKeeps(c, q, t, ds[|ds| - 1]);
      var r := PlaceDeclarator(c, q, t, ds[|ds| - 1]);
      assert r.decls[..|r.decls| - 1] == q.decls;
    }
  }

  lemma {:induction false} DeclKeeps(c: Context, p: Progress, sd: StructDecl)
    requires ProgressOk(c, p) && DeclOk(c, sd)
    ensures BareDecl(PlaceDecl(c, p, sd).1) == BareDecl(sd)
  {
    if sd.declarators != [] {
      DeclaratorsKeep(c, p, sd.typ, sd.declarators);
    }
  }

  lemma {:induction false} DeclsKeep(c: Context, p: Progress, decls: seq<StructDecl>)
    requires ProgressOk(c, p) && DeclsOk(c, decls)
    ensures BareDecls(PlaceDecls(c, p, decls).1) == BareDecls(decls)
  {
    if decls != [] {
      DeclsKeep(c, p, decls[..|decls| - 1]);
      var q := PlaceDecls(c, p, decls[..|decls| - 1]);
      DeclKeeps(c, q.0, decls[|decls| - 1]);
      var r := q.1 + [PlaceDecl(c, q.0, decls[|decls| - 1]).1];
      assert r[..|r| - 1] == q.1;
    }
  }

  // ----- The place plays no part -----

  lemma {:induction false} PushAlike(e: Engine, d: Declarator, d': Declarator, typeSize: nat)
    requires PushFits(e, d, typeSize, typeSize) && d.ext.bits <= 8 * typeSize && Bare(d) == Bare(d')
    ensures PushFits(e, d', typeSize, typeSize)
    ensures PushField(e, d, typeSize, typeSize) == PushField(e, d', typeSize, typeSize)
  {
  }

  lemma {:induction false} DeclaratorAlike(c: Context, r: Placed, t: TypeSpec, d: Declarator, d': Declarator)
    requires ProgressOk(c, r.p) && MemberOk(c, t, d) && ItemInfo(c.lp, t, d.pointer).align > 0 && Bare(d) == Bare(d')
    ensures MemberOk(c, t, d') && ItemInfo(c.lp, t, d'.pointer).align > 0
    ensures PlaceDeclarator(c, r, t, d) == PlaceDeclarator(c, r, t, d')
  {
    if d.ext.Bitfield? {
      var item := TypeInfo(c.lp, t, d).item;
      PushLands(RunEngine(c, r.p), d, item);
      PushAlike(RunEngine(c, r.p), d, d', item);
    }
  }

  lemma {:induction false} DeclaratorsAlike(c: Context, p: Progress, t: TypeSpec, ds: seq<Declarator>,
                                            ds': seq<Declarator>)
    requires ProgressOk(c, p) && DeclaratorsOk(c, t, ds) && AllBare(ds) == AllBare(ds')
    ensures DeclaratorsOk(c, t, ds') && PlaceDeclarators(c, p, t, ds) == PlaceDeclarators(c, p, t, ds')
  {
    if ds != [] {
      SameParts(AllBare(ds[..|ds| - 1]), Bare(ds[|ds| - 1]), AllBare(ds'[..|ds'| - 1]), Bare(ds'[|ds'| - 1]));
      DeclaratorsAlike(c, p, t, ds[..|ds| - 1], ds'[..|ds'| - 1]);
      var q := PlaceDeclarators(c, p, t, ds[..|ds| - 1]);
      DeclaratorAlike(c, q, t, ds[|ds| - 1], ds'[|ds'| - 1]);
      LastAmong(ds');
    }
  }

  lemma {:induction false} DeclAlike(c: Context, p: Progress, sd: StructDecl, sd': StructDecl)
    requires ProgressOk(c, p) && DeclOk(c, sd) && BareDecl(sd) == BareDecl(sd')
    ensures DeclOk(c, sd') && PlaceDecl(c, p, sd) == PlaceDecl(c, p, sd')
  {
    DeclaratorsAlike(c, p, sd.typ, sd.declarators, sd'.declarators);
  }

  lemma {:induction false} DeclsAlike(c: Context, p: Progress, decls: seq<StructDecl>, decls': seq<StructDecl>)
    requires ProgressOk(c, p) && DeclsOk(c, decls) && BareDecls(decls) == BareDecls(decls')
    ensures DeclsOk(c, decls') && PlaceDecls(c, p, decls) == PlaceDecls(c, p, decls')
  {
    if decls != [] {
      var k := |decls| - 1;
      SameParts(BareDecls(decls[..k]), BareDecl(decls[k]), BareDecls(decls'[..k]), BareDecl(decls'[k]));
      DeclsAlike(c, p, decls[..k], decls'[..k]);
      DeclAlike(c, PlaceDecls(c, p, decls[..k]).0, decls[k], decls'[k]);
      LastAmong(decls');
    }
  }

  // ----- Laying out again -----

  /** Compounds that differ only in what an earlier layout left in them are laid out alike. */
  lemma {:induction false} StructAlike(cfg: Config, s: Struct, s': Struct)
    requires Usable(cfg) && DeclsOk(ContextOf(cfg, s), s.decls) && BareDecls(s.decls) == BareDecls(s'.decls)
    requires s' == s.(decls := s'.decls, align := s'.align)
    ensures DeclsOk(ContextOf(cfg, s'), s'.decls) && PlaceStruct(cfg, s') == PlaceStruct(cfg, s)
  {
    DeclsAlike(ContextOf(cfg, s), Resumed(cfg, s), s.decls, s'.decls);
  }

  /** What a first run makes of a compound is laid out: once its size has been cleared, a second run computes
      the same offsets, alignment and size. */
  lemma {:induction false} LayoutAgain(cfg: Config, s: Struct)
    requires Usable(cfg) && DeclsOk(ContextOf(cfg, s), s.decls) && s.size == 0
    requires forall sd | sd in s.decls :: LaidOut(cfg, sd.typ)
    ensures BareDecls(PlaceStruct(cfg, s).decls) == BareDecls(s.decls) && StructLaidOut(cfg, PlaceStruct(cfg, s))
  {
    var r := PlaceStruct(cfg, s);
    DeclsKeep(ContextOf(cfg, s), Start(cfg, s), s.decls);
    StructAlike(cfg, s, r.(size := 0));
    forall sd | sd in r.decls
      ensures LaidOut(cfg, sd.typ)
    {
      var i :| 0 <= i < |r.decls| && r.decls[i] == sd;
      BareDeclsAt(r.decls, i);
      BareDeclsAt(s.decls, i);
      assert s.decls[i] in s.decls;
    }
  }
}
