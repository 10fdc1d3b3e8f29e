/**
 What a finished layout promises: the bits of all leaves, at every nesting depth and array index,
 follow one another inside the compound.
 */
module LayoutSafety {
  import opened CTypes
  import opened Bitfields
  import opened BitfieldSafety
  import opened Intervals
  import opened Layout
  import opened UnionLayout

  // ----- The end of a layout -----

  /** The last declarator of a finished layout, and the ones before it. */
  lemma {:induction false} SplitDeclarators(c: Context, p: Progress, t: TypeSpec, ds: seq<Declarator>)
    requires ProgressOk(c, p) && DeclaratorsOk(c, t, ds) && ds != []
    requires PlaceDeclarators(c, p, t, ds).decls == ds
    ensures var q, d := PlaceDeclarators(c, p, t, ds[..|ds| - 1]), ds[|ds| - 1];
      && q.decls == ds[..|ds| - 1]
      && PlaceDeclarators(c, p, t, ds) == PlaceDeclarator(c, q, t, d)
      && PlaceDeclarator(c, q, t, d).decls == q.decls + [d]
  {
  }

  lemma {:induction false} SplitDecls(c: Context, p: Progress, decls: seq<StructDecl>)
    requires ProgressOk(c, p) && DeclsOk(c, decls) && decls != []
    requires PlaceDecls(c, p, decls).1 == decls
    ensures var q, sd := PlaceDecls(c, p, decls[..|decls| - 1]), decls[|decls| - 1];
      && q.1 == decls[..|decls| - 1]
      && PlaceDecls(c, p, decls).0 == PlaceDecl(c, q.0, sd).0
      && PlaceDecl(c, q.0, sd).1 == sd
  {
    var q, sd := PlaceDecls(c, p, decls[..|decls| - 1]), decls[|decls| - 1];
    var r := PlaceDecl(c, q.0, sd);
    assert (q.1 + [r.1])[..|q.1|] == q.1 && (q.1 + [r.1])[|q.1|] == r.1;
  }

  // ----- Leaves -----

  /** Which alternative of each union, at its byte offset, is looked at: declaration and declarator. */
  type Pick = (Struct, int) -> (nat, nat)

  /** The bit intervals of all leaves of one item of type t that starts at byte base. */
  ghost function ItemLeaves(cfg: Config, pick: Pick, t: TypeSpec, pointer: bool, base: int): seq<Span>
    requires Usable(cfg) && LaidOut(cfg, t)
    decreases t, 2
  {
    if pointer then Whole(cfg, t, pointer, base)
    else
      match t
      case TypeRef(td) => ArrayLeaves(cfg, pick, td.typ, td.decl.pointer, base, Product(Dims(td.decl)))
      case Compound(s) =>
        if s.decls == [] then Whole(cfg, t, pointer, base)
        else if s.isUnion then
          assert StructLaidOut(cfg, s);
          var (i, j) := pick(s, base);
          if i < |s.decls| then AlternativeLeaves(cfg, pick, s.decls[i], j, base) else []
        else
          assert StructLaidOut(cfg, s);
          StructLeaves(cfg, pick, s.decls, base)
      case _ => Whole(cfg, t, pointer, base)
  }

  ghost function Whole(cfg: Config, t: TypeSpec, pointer: bool, base: int): seq<Span>
    requires Sized(cfg.lp, t)
  {
    [Span(8 * base, 8 * (base + ItemInfo(cfg.lp, t, pointer).item))]
  }

  /** Where element k of an array at byte base starts. */
  ghost function ItemBase(base: int, k: nat, item: nat): int
    decreases k
  {
    if k == 0 then base else ItemBase(base, k - 1, item) + item
  }

  lemma {:induction false} ItemBaseIs(base: int, k: nat, item: nat)
    ensures ItemBase(base, k, item) == base + item * k
    decreases k
  {
    if k > 0 {
      ItemBaseIs(base, k - 1, item);
      OneMoreItem(item, k);
    }
  }

  lemma OneMoreItem(item: int, k: int)
    ensures item * (k - 1) + item == item * k
  {
  }

  ghost function ArrayLeaves(cfg: Config, pick: Pick, t: TypeSpec, pointer: bool, base: int, n: nat): seq<Span>
    requires Usable(cfg) && LaidOut(cfg, t)
    decreases t, 3, n
  {
    if n == 0 then []
    else
      ArrayLeaves(cfg, pick, t, pointer, base, n - 1)
      + ItemLeaves(cfg, pick, t, pointer, ItemBase(base, n - 1, ItemInfo(cfg.lp, t, pointer).item))
  }

  ghost function MemberLeaves(cfg: Config, pick: Pick, t: TypeSpec, d: Declarator, base: int): seq<Span>
    requires Usable(cfg) && LaidOut(cfg, t)
    decreases t, 4
  {
    if d.ext.Bitfield? then
      if d.ext.bits == 0 then []
      else var f := FieldSpan(cfg.lp.order, d); [Span(8 * base + f.lo, 8 * base + f.hi)]
    else ArrayLeaves(cfg, pick, t, d.pointer, base + d.offset, Product(Dims(d)))
  }

  ghost function DeclaratorLeaves(cfg: Config, pick: Pick, t: TypeSpec, ds: seq<Declarator>, base: int): seq<Span>
    requires Usable(cfg) && LaidOut(cfg, t)
    decreases t, 5, |ds|
  {
    if ds == [] then []
    else DeclaratorLeaves(cfg, pick, t, ds[..|ds| - 1], base) + MemberLeaves(cfg, pick, t, ds[|ds| - 1], base)
  }

  ghost function DeclLeaves(cfg: Config, pick: Pick, sd: StructDecl, base: int): seq<Span>
    requires Usable(cfg) && LaidOut(cfg, sd.typ)
    decreases sd
  {
    if sd.declarators == [] then ItemLeaves(cfg, pick, sd.typ, false, base + sd.offset)
    else DeclaratorLeaves(cfg, pick, sd.typ, sd.declarators, base)
  }

  ghost function AlternativeLeaves(cfg: Config, pick: Pick, sd: StructDecl, j: nat, base: int): seq<Span>
    requires Usable(cfg) && LaidOut(cfg, sd.typ)
    decreases sd
  {
    if sd.declarators == [] then ItemLeaves(cfg, pick, sd.typ, false, base + sd.offset)
    else if j < |sd.declarators| then MemberLeaves(cfg, pick, sd.typ, sd.declarators[j], base)
    else []
  }

  ghost function StructLeaves(cfg: Config, pick: Pick, decls: seq<StructDecl>, base: int): seq<Span>
    requires Usable(cfg) && forall sd | sd in decls :: LaidOut(cfg, sd.typ)
    decreases decls
  {
    if decls == [] then []
    else StructLeaves(cfg, pick, decls[..|decls| - 1], base) + DeclLeaves(cfg, pick, decls[|decls| - 1], base)
  }

  // ----- Leaves do not overlap -----

  /** Every union covers its alternatives; without bitfields it does, with them under an exact condition. */
  ghost predicate Separate(cfg: Config, t: TypeSpec) {
    match t
    case TypeRef(td) => Separate(cfg, td.typ)
    case Compound(s) =>
      && (forall sd | sd in s.decls :: Sized(cfg.lp, sd.typ) && Separate(cfg, sd.typ))
      && (s.isUnion ==> Covers(OfDecls(ContextOf(cfg, s), s.decls), s.size))
    case _ => true
  }

  ghost predicate NoBitfields(sd: StructDecl) {
    forall d | d in sd.declarators :: !d.ext.Bitfield?
  }

  /** The first bit after everything placed so far. */
  ghost function Reach(p: Progress): int {
    if p.open.Some? then Cursor(p.open.value) else 8 * p.size
  }

  /** The same, for a compound at byte base. */
  ghost function Edge(base: int, p: Progress): int {
    8 * base + Reach(p)
  }

  lemma {:induction false} FinishReach(c: Context, p: Progress)
    requires ProgressOk(c, p)
    ensures Reach(p) <= 8 * Finished(p).size
  {
    if p.open.Some? {
      FinalizeLands(p.open.value);
    }
  }

  lemma {:induction false} ItemChain(cfg: Config, pick: Pick, t: TypeSpec, pointer: bool, base: int)
    requires Usable(cfg) && LaidOut(cfg, t) && Separate(cfg, t)
    ensures Chain(ItemLeaves(cfg, pick, t, pointer, base), 8 * base, 8 * (base + ItemInfo(cfg.lp, t, pointer).item))
    decreases t, 2
  {
    if pointer || t.Basic? || t.Enum? || (t.Compound? && t.body.decls == []) {
    } else if t.TypeRef? {
      var td := t.typedef;
      ArrayChain(cfg, pick, td.typ, td.decl.pointer, base, Product(Dims(td.decl)));
    } else {
      StructChain(cfg, pick, t.body, base);
    }
  }

  lemma {:induction false} ArrayChain(cfg: Config, pick: Pick, t: TypeSpec, pointer: bool, base: int, n: nat)
    requires Usable(cfg) && LaidOut(cfg, t) && Separate(cfg, t)
    ensures var item := ItemInfo(cfg.lp, t, pointer).item;
      Chain(ArrayLeaves(cfg, pick, t, pointer, base, n), 8 * base, 8 * (base + item * n))
    decreases t, 3, n + 1
  {
    ElementsChain(cfg, pick, t, pointer, base, n);
    ItemBaseIs(base, n, ItemInfo(cfg.lp, t, pointer).item);
  }

  lemma {:induction false} ElementsChain(cfg: Config, pick: Pick, t: TypeSpec, pointer: bool, base: int, n: nat)
    requires Usable(cfg) && LaidOut(cfg, t) && Separate(cfg, t)
    ensures var end := ItemBase(base, n, ItemInfo(cfg.lp, t, pointer).item);
      Chain(ArrayLeaves(cfg, pick, t, pointer, base, n), 8 * base, 8 * end)
    decreases t, 3, n
  {
    if n > 0 {
      var at := ItemBase(base, n - 1, ItemInfo(cfg.lp, t, pointer).item);
      ElementsChain(cfg, pick, t, pointer, base, n - 1);
      ItemChain(cfg, pick, t, pointer, at);
      ChainConcat(ArrayLeaves(cfg, pick, t, pointer, base, n - 1), ItemLeaves(cfg, pick, t, pointer, at),
                  8 * base, 8 * at, 8 * (at + ItemInfo(cfg.lp, t, pointer).item));
    }
  }

  // ----- Structs -----

  lemma {:induction false} MemberChain(cfg: Config, pick: Pick, c: Context, r: Placed, t: TypeSpec, d: Declarator,
                                       base: int)
    requires Usable(cfg) && LaidOut(cfg, t) && Separate(cfg, t) && c.lp == cfg.lp && !c.isUnion
    requires ProgressOk(c, r.p) && MemberOk(c, t, d) && ItemInfo(c.lp, t, d.pointer).align > 0
    requires PlaceDeclarator(c, r, t, d).decls == r.decls + [d]
    ensures Chain(MemberLeaves(cfg, pick, t, d, base), Edge(base, r.p), Edge(base, PlaceDeclarator(c, r, t, d).p))
    decreases t, 4
  {
    var q := PlaceDeclarator(c, r, t, d);
    assert q.decls[|r.decls|] == d;
    if d.ext.Bitfield? {
      BitfieldChain(cfg, pick, c, r.p, t, d, base);
    } else {
      FinishReach(c, r.p);
      ArrayChain(cfg, pick, t, d.pointer, base + d.offset, Product(Dims(d)));
      ChainWider(MemberLeaves(cfg, pick, t, d, base), 8 * (base + d.offset), 8 * (base + d.offset + d.size),
                 Edge(base, r.p), Edge(base, q.p));
    }
  }

  lemma {:induction false} BitfieldChain(cfg: Config, pick: Pick, c: Context, p: Progress, t: TypeSpec, d: Declarator,
                                         base: int)
    requires Usable(cfg) && LaidOut(cfg, t) && c.lp == cfg.lp && !c.isUnion
    requires ProgressOk(c, p) && d.ext.Bitfield? && MemberOk(c, t, d)
    requires PlaceBitfield(c, p, d, ItemInfo(c.lp, t, d.pointer).item).1 == d
    ensures var q := PlaceBitfield(c, p, d, ItemInfo(c.lp, t, d.pointer).item);
      Chain(MemberLeaves(cfg, pick, t, d, base), Edge(base, p), Edge(base, q.0))
  {
    var item := ItemInfo(c.lp, t, d.pointer).item;
    BitfieldReach(c, p, d, item);
    if d.ext.bits > 0 {
      var f := FieldSpan(cfg.lp.order, d);
      assert [Span(8 * base + f.lo, 8 * base + f.hi)][..0] == [];
    }
  }

  lemma {:induction false} BitfieldReach(c: Context, p: Progress, d: Declarator, item: nat)
    requires ProgressOk(c, p) && FieldOk(Started(c, 0, 1), d, item) && !c.isUnion
    ensures var q := PlaceBitfield(c, p, d, item);
      if d.ext.bits == 0 then Reach(p) <= Reach(q.0)
      else Reach(p) <= FieldSpan(c.lp.order, q.1).lo && FieldSpan(c.lp.order, q.1).hi == Reach(q.0)
  {
    var e := RunEngine(c, p);
    StartedSane(c, p.size, p.align);
    PushLands(e, d, item);
    assert Order(e) == c.lp.order;
  }

  lemma {:induction false} DeclaratorsChain(cfg: Config, pick: Pick, c: Context, p: Progress, t: TypeSpec,
                                            ds: seq<Declarator>, base: int)
    requires Usable(cfg) && LaidOut(cfg, t) && Separate(cfg, t) && c.lp == cfg.lp && !c.isUnion
    requires ProgressOk(c, p) && DeclaratorsOk(c, t, ds) && PlaceDeclarators(c, p, t, ds).decls == ds
    ensures Chain(DeclaratorLeaves(cfg, pick, t, ds, base), Edge(base, p), Edge(base, PlaceDeclarators(c, p, t, ds).p))
    decreases t, 5, |ds|
  {
    if ds != [] {
      var q, d := PlaceDeclarators(c, p, t, ds[..|ds| - 1]), ds[|ds| - 1];
      SplitDeclarators(c, p, t, ds);
      DeclaratorsChain(cfg, pick, c, p, t, ds[..|ds| - 1], base);
      MemberChain(cfg, pick, c, q, t, d, base);
      JoinDeclarators(cfg, pick, t, ds, base, Edge(base, p), Edge(base, q.p),
                      Edge(base, PlaceDeclarator(c, q, t, d).p));
    }
  }

  lemma {:induction false} JoinDeclarators(cfg: Config, pick: Pick, t: TypeSpec, ds: seq<Declarator>, base: int,
                                           lo: int, mid: int, hi: int)
    requires Usable(cfg) && LaidOut(cfg, t) && ds != []
    requires Chain(DeclaratorLeaves(cfg, pick, t, ds[..|ds| - 1], base), lo, mid)
    requires Chain(MemberLeaves(cfg, pick, t, ds[|ds| - 1], base), mid, hi)
    ensures Chain(DeclaratorLeaves(cfg, pick, t, ds, base), lo, hi)
  {
    ChainConcat(DeclaratorLeaves(cfg, pick, t, ds[..|ds| - 1], base), MemberLeaves(cfg, pick, t, ds[|ds| - 1], base),
                lo, mid, hi);
  }

  lemma {:induction false} DeclChain(cfg: Config, pick: Pick, c: Context, p: Progress, sd: StructDecl, base: int)
    requires Usable(cfg) && LaidOut(cfg, sd.typ) && Separate(cfg, sd.typ) && c.lp == cfg.lp && !c.isUnion
    requires ProgressOk(c, p) && DeclOk(c, sd) && PlaceDecl(c, p, sd).1 == sd
    ensures Chain(DeclLeaves(cfg, pick, sd, base), Edge(base, p), Edge(base, PlaceDecl(c, p, sd).0))
    decreases sd
  {
    var r := PlaceDecl(c, p, sd);
    if sd.declarators == [] {
      FinishReach(c, p);
      ItemChain(cfg, pick, sd.typ, false, base + sd.offset);
      ChainWider(DeclLeaves(cfg, pick, sd, base), 8 * (base + sd.offset), Edge(base, r.0),
                 Edge(base, p), Edge(base, r.0));
    } else {
      assert PlaceDeclarators(c, p, sd.typ, sd.declarators).decls == sd.declarators;
      DeclaratorsChain(cfg, pick, c, p, sd.typ, sd.declarators, base);
    }
  }

  lemma {:induction false} DeclsChain(cfg: Config, pick: Pick, c: Context, p: Progress, decls: seq<StructDecl>,
                                      base: int)
    requires Usable(cfg) && c.lp == cfg.lp && !c.isUnion
    requires forall sd | sd in decls :: LaidOut(cfg, sd.typ) && Separate(cfg, sd.typ)
    requires ProgressOk(c, p) && DeclsOk(c, decls) && PlaceDecls(c, p, decls).1 == decls
    ensures Chain(StructLeaves(cfg, pick, decls, base), Edge(base, p), Edge(base, PlaceDecls(c, p, decls).0))
    decreases decls
  {
    if decls != [] {
      var q, sd := PlaceDecls(c, p, decls[..|decls| - 1]), decls[|decls| - 1];
      SplitDecls(c, p, decls);
      DeclsChain(cfg, pick, c, p, decls[..|decls| - 1], base);
      DeclChain(cfg, pick, c, q.0, sd, base);
      JoinDecls(cfg, pick, decls, base, Edge(base, p), Edge(base, q.0),
                Edge(base, PlaceDecl(c, q.0, sd).0));
    }
  }

  lemma {:induction false} JoinDecls(cfg: Config, pick: Pick, decls: seq<StructDecl>, base: int, lo: int, mid: int,
                                     hi: int)
    requires Usable(cfg) && decls != [] && forall sd | sd in decls :: LaidOut(cfg, sd.typ)
    requires Chain(StructLeaves(cfg, pick, decls[..|decls| - 1], base), lo, mid)
    requires Chain(DeclLeaves(cfg, pick, decls[|decls| - 1], base), mid, hi)
    ensures Chain(StructLeaves(cfg, pick, decls, base), lo, hi)
  {
    ChainConcat(StructLeaves(cfg, pick, decls[..|decls| - 1], base), DeclLeaves(cfg, pick, decls[|decls| - 1], base),
                lo, mid, hi);
  }

  // ----- Unions -----

  lemma {:induction false} DeclaratorAmong(c: Context, t: TypeSpec, ds: seq<Declarator>, j: nat)
    requires Sized(c.lp, t) && j < |ds|
    ensures OfDeclarators(c, t, ds)[j] == OfDeclarator(c, t, ds[j])
  {
    if j < |ds| - 1 {
      DeclaratorAmong(c, t, ds[..|ds| - 1], j);
    }
  }

  lemma CoversParts(xs: seq<Alternative>, ys: seq<Alternative>, n: nat)
    requires Covers(xs + ys, n)
    ensures Covers(xs, n) && Covers(ys, n)
  {
    forall i | 0 <= i < |xs|
      ensures xs[i].bytes <= n
    {
      assert (xs + ys)[i] == xs[i];
    }
    forall i | 0 <= i < |ys|
      ensures ys[i].bytes <= n
    {
      assert (xs + ys)[|xs| + i] == ys[i];
    }
  }

  lemma {:induction false} CoversDecl(c: Context, decls: seq<StructDecl>, i: nat, n: nat)
    requires (forall sd | sd in decls :: Sized(c.lp, sd.typ)) && i < |decls| && Covers(OfDecls(c, decls), n)
    ensures Covers(OfDecl(c, decls[i]), n)
  {
    var below, last := decls[..|decls| - 1], decls[|decls| - 1];
    CoversParts(OfDecls(c, below), OfDecl(c, last), n);
    if i < |below| {
      assert below[i] == decls[i];
      CoversDecl(c, below, i, n);
    } else {
      assert decls[i] == last;
    }
  }

  lemma {:induction false} PlainDecls(c: Context, decls: seq<StructDecl>)
    requires forall sd | sd in decls :: Sized(c.lp, sd.typ) && NoBitfields(sd)
    ensures forall a | a in OfDecls(c, decls) :: !a.field
  {
    if decls != [] {
      var sd := decls[|decls| - 1];
      PlainDecls(c, decls[..|decls| - 1]);
      forall j | 0 <= j < |sd.declarators|
        ensures !OfDeclarators(c, sd.typ, sd.declarators)[j].field
      {
        DeclaratorAmong(c, sd.typ, sd.declarators, j);
      }
    }
  }

  /** Without bitfields, a union covers its alternatives. */
  lemma {:induction false} PlainUnionCovers(cfg: Config, s: Struct)
    requires Usable(cfg) && DeclsOk(ContextOf(cfg, s), s.decls) && s.isUnion
    requires forall sd | sd in s.decls :: NoBitfields(sd)
    ensures Covers(OfDecls(ContextOf(cfg, s), s.decls), PlaceStruct(cfg, s).size)
  {
    var xs := OfDecls(ContextOf(cfg, s), s.decls);
    PlainDecls(ContextOf(cfg, s), s.decls);
    UnionCoversExact(cfg, s);
    if LastField(xs) > 0 {
      LastIsField(xs);
    }
  }

  lemma {:induction false} LastIsField(xs: seq<Alternative>)
    requires LastField(xs) > 0
    ensures LastField(xs) < |xs| && xs[LastField(xs)] in xs && xs[LastField(xs)].field
  {
    if !xs[|xs| - 1].field {
      LastIsField(xs[..|xs| - 1]);
    }
  }

  /** A union that covers its alternatives holds the leaves of each of them. */
  lemma {:induction false} AlternativeChain(cfg: Config, pick: Pick, c: Context, sd: StructDecl, j: nat, base: int,
                                            n: nat)
    requires Usable(cfg) && LaidOut(cfg, sd.typ) && Separate(cfg, sd.typ) && c.lp == cfg.lp
    requires DeclLodged(c, sd) && Covers(OfDecl(c, sd), n)
    ensures Chain(AlternativeLeaves(cfg, pick, sd, j, base), 8 * base, 8 * (base + n))
    decreases sd
  {
    if sd.declarators == [] {
      assert OfDecl(c, sd)[0].bytes <= n;
      ItemChain(cfg, pick, sd.typ, false, base);
      ChainWider(ItemLeaves(cfg, pick, sd.typ, false, base), 8 * base,
                 8 * (base + ItemInfo(cfg.lp, sd.typ, false).item), 8 * base, 8 * (base + n));
    } else if j < |sd.declarators| {
      DeclaratorAmong(c, sd.typ, sd.declarators, j);
      DeclaratorAlternative(cfg, pick, c, sd.typ, sd.declarators[j], base, n);
    }
  }

  lemma {:induction false} DeclaratorAlternative(cfg: Config, pick: Pick, c: Context, t: TypeSpec, d: Declarator,
                                                 base: int, n: nat)
    requires Usable(cfg) && LaidOut(cfg, t) && Separate(cfg, t) && c.lp == cfg.lp
    requires Lodged(c, t, d) && OfDeclarator(c, t, d).bytes <= n
    ensures Chain(MemberLeaves(cfg, pick, t, d, base), 8 * base, 8 * (base + n))
    decreases t, 4
  {
    if d.ext.Bitfield? {
      if d.ext.bits > 0 {
        var f := FieldSpan(cfg.lp.order, d);
        assert [Span(8 * base + f.lo, 8 * base + f.hi)][..0] == [];
      }
    } else {
      ArrayChain(cfg, pick, t, d.pointer, base, Product(Dims(d)));
      ChainWider(ArrayLeaves(cfg, pick, t, d.pointer, base, Product(Dims(d))), 8 * base,
                 8 * (base + TypeInfo(cfg.lp, t, d).size), 8 * base, 8 * (base + n));
    }
  }

  lemma {:induction false} StructChain(cfg: Config, pick: Pick, s: Struct, base: int)
    requires Usable(cfg) && StructLaidOut(cfg, s) && s.decls != [] && Separate(cfg, Compound(s))
    ensures Chain(ItemLeaves(cfg, pick, Compound(s), false, base), 8 * base, 8 * (base + s.size))
    decreases s
  {
    if s.isUnion {
      var (i, j) := pick(s, base);
      if i < |s.decls| {
        var c := ContextOf(cfg, s);
        DeclsTake(c, Layout.Start(cfg, s), s.decls);
        CoversDecl(c, s.decls, i, s.size);
        AlternativeChain(cfg, pick, c, s.decls[i], j, base, s.size);
      }
    } else {
      var c := ContextOf(cfg, s);
      var r := PlaceDecls(c, Start(cfg, s), s.decls);
      DeclsChain(cfg, pick, c, Start(cfg, s), s.decls, base);
      FinishReach(c, r.0);
      ChainWider(StructLeaves(cfg, pick, s.decls, base), 8 * base, Edge(base, r.0), 8 * base, 8 * (base + s.size));
    }
  }

  /** The bits of all leaves of a laid-out type are pairwise disjoint and lie inside it. */
  lemma {:induction false} LeavesDisjoint(cfg: Config, pick: Pick, t: TypeSpec, i: nat, j: nat)
    requires Usable(cfg) && LaidOut(cfg, t) && Separate(cfg, t)
    requires i < j < |ItemLeaves(cfg, pick, t, false, 0)|
    ensures var xs := ItemLeaves(cfg, pick, t, false, 0);
      0 <= xs[i].lo && xs[i].hi <= xs[j].lo && xs[j].hi <= 8 * ItemInfo(cfg.lp, t, false).size
  {
    ItemChain(cfg, pick, t, false, 0);
    ChainDisjoint(ItemLeaves(cfg, pick, t, false, 0), 0, 8 * ItemInfo(cfg.lp, t, false).item, i, j);
  }
}
