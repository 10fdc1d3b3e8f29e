/**
 Alignment: in a bitfield-free type without packing, every leaf at any depth and array index lies
 at a multiple of its natural alignment, as far as the configured limit allows.
 */
module LayoutAlignment {
  import opened Bits
  import opened CTypes
  import opened Bitfields
  import opened Layout
  import opened LayoutSafety

  /** m is a power of two. */
  ghost predicate Power(m: nat) {
    exists k: nat :: m == Pow2(k)
  }

  ghost predicate Divides(m: nat, x: int) {
    m > 0 && x % m == 0
  }

  lemma DividesSum(m: nat, x: int, y: int)
    requires Divides(m, x) && Divides(m, y)
    ensures Divides(m, x + y)
  {
    ModAddLeft(x, y, m);
  }

  lemma DividesMul(m: nat, x: int, k: int)
    requires Divides(m, x)
    ensures Divides(m, k * x) && Divides(m, x * k)
  {
    ModMulLeft(x, k, m);
    assert x * k == k * x;
  }

  lemma DividesTrans(m: nat, n: nat, x: int)
    requires Divides(m, n) && Divides(n, x)
    ensures Divides(m, x)
  {
    assert x == (x / n) * n;
    DividesMul(m, n, x / n);
  }

  /** Of two powers of two the smaller divides the larger. */
  lemma PowerDivides(a: nat, b: nat)
    requires Power(a) && Power(b) && a <= b
    ensures Divides(a, b)
  {
    var i: nat :| a == Pow2(i);
    var j: nat :| b == Pow2(j);
    if j < i {
      Pow2Strict(j, i);
    } else {
      Pow2Add(j - i, i);
      DividesMul(a, a, Pow2(j - i));
    }
  }

  lemma PowerPositive(a: nat)
    requires Power(a)
    ensures a > 0
  {
  }

  lemma DividesItself(a: nat)
    requires Power(a)
    ensures Divides(a, a)
  {
    PowerPositive(a);
  }

  lemma RoundUpDivides(n: nat, align: nat)
    requires align > 0
    ensures Divides(align, RoundUp(n, align))
  {
    if n % align > 0 {
      DivModUnique(n + (align - n % align), align, n / align + 1, 0);
    }
  }

  function Limit(cfg: Config): nat {
    Chosen(cfg.lp.alignment, cfg.lp.nativeAlignment)
  }

  /** Settings and sizes are powers of two. */
  ghost predicate PowerConfig(cfg: Config) {
    && Power(Limit(cfg)) && Power(Chosen(cfg.lp.compoundAlignment, cfg.lp.nativeCompoundAlignment))
    && Power(PointerSize(cfg.lp)) && Power(IntSizeOf(cfg.lp))
  }

  /** No bitfields, no packing, and basic types of power-of-two sizes. */
  ghost predicate Regular(cfg: Config, t: TypeSpec)
    requires Sized(cfg.lp, t)
  {
    match t
    case TypeRef(td) => Regular(cfg, td.typ)
    case Compound(s) =>
      s.pack == 0 && forall sd | sd in s.decls :: NoBitfields(sd) && Sized(cfg.lp, sd.typ) && Regular(cfg, sd.typ)
    case _ => Power(ItemInfo(cfg.lp, t, false).item)
  }

  /** The alignment a member gets: its natural one, limited. */
  ghost function Effective(cfg: Config, t: TypeSpec, pointer: bool): nat
    requires Sized(cfg.lp, t)
  {
    Min(ItemInfo(cfg.lp, t, pointer).align, Limit(cfg))
  }

  /** Every leaf of an item of type t at byte base, in every alternative of every union, is aligned. */
  ghost predicate Aligned(cfg: Config, t: TypeSpec, pointer: bool, base: int)
    requires Usable(cfg) && LaidOut(cfg, t)
    decreases t, 2
  {
    if pointer then Divides(Effective(cfg, t, pointer), base)
    else
      match t
      case TypeRef(td) => AllAligned(cfg, td.typ, td.decl, base)
      case Compound(s) =>
        if s.decls == [] then Divides(Effective(cfg, t, pointer), base)
        else
          assert StructLaidOut(cfg, s);
          forall sd | sd in s.decls :: DeclAligned(cfg, sd, base)
      case _ => Divides(Effective(cfg, t, pointer), base)
  }

  ghost predicate AllAligned(cfg: Config, t: TypeSpec, d: Declarator, base: int)
    requires Usable(cfg) && LaidOut(cfg, t)
    decreases t, 3
  {
    forall k: nat | k < Product(Dims(d)) :: Aligned(cfg, t, d.pointer, base + k * ItemInfo(cfg.lp, t, d.pointer).item)
  }

  ghost predicate DeclAligned(cfg: Config, sd: StructDecl, base: int)
    requires Usable(cfg) && LaidOut(cfg, sd.typ)
    decreases sd
  {
    if sd.declarators == [] then Aligned(cfg, sd.typ, false, base + sd.offset)
    else forall d | d in sd.declarators :: AllAligned(cfg, sd.typ, d, base + d.offset)
  }

  // ----- Offsets of members -----

  /** The progress of an unpacked run: a power of two that is within the limit. */
  ghost predicate Tidy(cfg: Config, c: Context, p: Progress) {
    && ProgressOk(c, p) && p.open.None? && Power(p.align)
    && p.align <= Limit(cfg) && c.limit == Limit(cfg) && c.lp == cfg.lp
  }

  /** A member of natural alignment `align` at offset is in its place in a compound of alignment a. */
  ghost predicate InPlace(cfg: Config, offset: int, align: nat, a: nat) {
    Divides(Min(align, Limit(cfg)), offset) && Min(align, Limit(cfg)) <= a
  }

  lemma PlacedAligned(cfg: Config, c: Context, p: Progress, size: nat, align: nat)
    requires Tidy(cfg, c, p) && Power(align) && PowerConfig(cfg)
    ensures var q := PlaceMember(c, p, size, align);
      Tidy(cfg, c, q.0) && p.align <= q.0.align && InPlace(cfg, q.1, align, q.0.align)
  {
    PowerPositive(align);
    PowerPositive(Limit(cfg));
    RoundUpDivides(p.size, Min(align, c.limit));
  }

  /** All declarators of a declaration are in their places. */
  ghost predicate DeclaratorsInPlace(cfg: Config, t: TypeSpec, ds: seq<Declarator>, a: nat)
    requires Sized(cfg.lp, t)
  {
    forall d | d in ds :: InPlace(cfg, d.offset, ItemInfo(cfg.lp, t, d.pointer).align, a)
  }

  lemma {:induction false} DeclaratorsAligned(cfg: Config, c: Context, p: Progress, t: TypeSpec, ds: seq<Declarator>)
    requires Tidy(cfg, c, p) && PowerConfig(cfg) && DeclaratorsOk(c, t, ds)
    requires Power(ItemInfo(c.lp, t, false).align)
    requires (forall d | d in ds :: !d.ext.Bitfield?) && PlaceDeclarators(c, p, t, ds).decls == ds
    ensures var r := PlaceDeclarators(c, p, t, ds).p;
      Tidy(cfg, c, r) && p.align <= r.align && DeclaratorsInPlace(cfg, t, ds, r.align)
  {
    if ds != [] {
      var q, d := PlaceDeclarators(c, p, t, ds[..|ds| - 1]), ds[|ds| - 1];
      SplitDeclarators(c, p, t, ds);
      DeclaratorsAligned(cfg, c, p, t, ds[..|ds| - 1]);
      var i := TypeInfo(c.lp, t, d);
      PlacedAligned(cfg, c, q.p, i.size, i.align);
      assert PlaceDeclarator(c, q, t, d).decls[|q.decls|] == d;
    }
  }

  ghost predicate DeclInPlace(cfg: Config, sd: StructDecl, a: nat)
    requires Sized(cfg.lp, sd.typ)
  {
    && (sd.declarators == [] ==> InPlace(cfg, sd.offset, ItemInfo(cfg.lp, sd.typ, false).align, a))
    && DeclaratorsInPlace(cfg, sd.typ, sd.declarators, a)
  }

  lemma DeclPlaced(cfg: Config, c: Context, p: Progress, sd: StructDecl)
    requires Tidy(cfg, c, p) && PowerConfig(cfg) && DeclOk(c, sd) && NoBitfields(sd)
    requires Power(ItemInfo(c.lp, sd.typ, false).align) && PlaceDecl(c, p, sd).1 == sd
    ensures var r := PlaceDecl(c, p, sd).0;
      Tidy(cfg, c, r) && p.align <= r.align && DeclInPlace(cfg, sd, r.align)
  {
    if sd.declarators == [] {
      var i := ItemInfo(c.lp, sd.typ, false);
      PlacedAligned(cfg, c, p, i.size, i.align);
    } else {
      assert PlaceDeclarators(c, p, sd.typ, sd.declarators).decls == sd.declarators;
      DeclaratorsAligned(cfg, c, p, sd.typ, sd.declarators);
    }
  }

  lemma DeclInPlaceUp(cfg: Config, sd: StructDecl, a: nat, b: nat)
    requires Sized(cfg.lp, sd.typ) && DeclInPlace(cfg, sd, a) && a <= b
    ensures DeclInPlace(cfg, sd, b)
  {
  }

  lemma {:induction false} DeclsPlaced(cfg: Config, c: Context, p: Progress, decls: seq<StructDecl>)
    requires Tidy(cfg, c, p) && PowerConfig(cfg) && DeclsOk(c, decls)
    requires forall sd | sd in decls :: NoBitfields(sd) && Power(ItemInfo(c.lp, sd.typ, false).align)
    requires PlaceDecls(c, p, decls).1 == decls
    ensures var r := PlaceDecls(c, p, decls).0;
      Tidy(cfg, c, r) && p.align <= r.align && forall sd | sd in decls :: DeclInPlace(cfg, sd, r.align)
  {
    if decls != [] {
      var q, sd := PlaceDecls(c, p, decls[..|decls| - 1]), decls[|decls| - 1];
      SplitDecls(c, p, decls);
      DeclsPlaced(cfg, c, p, decls[..|decls| - 1]);
      DeclPlaced(cfg, c, q.0, sd);
      var r := PlaceDecl(c, q.0, sd).0;
      forall x | x in decls
        ensures DeclInPlace(cfg, x, r.align)
      {
        if x in decls[..|decls| - 1] {
          DeclInPlaceUp(cfg, x, q.0.align, r.align);
        }
      }
    }
  }

  // ----- The claims -----

  /** A compound's size is a multiple of its alignment, which every member's effective alignment divides. */
  lemma {:induction false} StructAligned(cfg: Config, s: Struct)
    requires Usable(cfg) && StructLaidOut(cfg, s) && s.decls != [] && PowerConfig(cfg) && Regular(cfg, Compound(s))
    ensures Power(s.align) && s.align <= Limit(cfg) && Divides(s.align, s.size)
    ensures forall sd | sd in s.decls :: DeclInPlace(cfg, sd, s.align)
    decreases s
  {
    var c := ContextOf(cfg, s);
    forall sd | sd in s.decls
      ensures NoBitfields(sd) && Power(ItemInfo(c.lp, sd.typ, false).align)
    {
      ItemPower(cfg, sd.typ, false);
    }
    DeclsPlaced(cfg, c, Start(cfg, s), s.decls);
    var f := PlaceDecls(c, Start(cfg, s), s.decls).0;
    RoundUpDivides(f.size, f.align);
  }

  /** Alignments are powers of two, and sizes are multiples of them. */
  lemma {:induction false} ItemPower(cfg: Config, t: TypeSpec, pointer: bool)
    requires Usable(cfg) && LaidOut(cfg, t) && PowerConfig(cfg) && Regular(cfg, t)
    ensures var i := ItemInfo(cfg.lp, t, pointer); Power(i.align) && Divides(i.align, i.item)
    decreases t
  {
    if pointer || t.Basic? || t.Enum? || (t.Compound? && t.body.decls == []) {
      var i := ItemInfo(cfg.lp, t, pointer);
      assert i.align == i.item && Power(i.item);
      DividesItself(i.item);
    } else if t.TypeRef? {
      var td := t.typedef;
      ItemPower(cfg, td.typ, td.decl.pointer);
      var i := ItemInfo(cfg.lp, td.typ, td.decl.pointer);
      DividesMul(i.align, i.item, Product(Dims(td.decl)));
    } else {
      StructAligned(cfg, t.body);
    }
  }

  /** Items of an array that starts at an aligned byte are aligned. */
  lemma {:induction false} ItemsAligned(cfg: Config, t: TypeSpec, d: Declarator, base: int)
    requires Usable(cfg) && LaidOut(cfg, t) && PowerConfig(cfg) && Regular(cfg, t)
    requires Divides(Effective(cfg, t, d.pointer), base)
    ensures AllAligned(cfg, t, d, base)
    decreases t, 3
  {
    var i := ItemInfo(cfg.lp, t, d.pointer);
    var e := Effective(cfg, t, d.pointer);
    ItemPower(cfg, t, d.pointer);
    PowerDivides(e, i.align);
    DividesTrans(e, i.align, i.item);
    forall k: nat | k < Product(Dims(d))
      ensures Aligned(cfg, t, d.pointer, base + k * i.item)
    {
      DividesMul(e, i.item, k);
      DividesSum(e, base, k * i.item);
      LeavesAligned(cfg, t, d.pointer, base + k * i.item);
    }
  }

  /** A member that is in its place in an aligned compound is aligned. */
  lemma MemberBase(cfg: Config, base: int, offset: int, align: nat, a: nat)
    requires PowerConfig(cfg) && Power(align) && Power(a) && a <= Limit(cfg)
    requires Divides(a, base) && InPlace(cfg, offset, align, a)
    ensures Divides(Min(align, Limit(cfg)), base + offset)
  {
    PowerDivides(Min(align, Limit(cfg)), a);
    DividesTrans(Min(align, Limit(cfg)), a, base);
    DividesSum(Min(align, Limit(cfg)), base, offset);
  }

  /**
   Every leaf of a regular type that starts at a multiple of the type's effective alignment lies at
   a multiple of its own: at any nesting depth, array index and in every alternative of a union.
   */
  lemma {:induction false} LeavesAligned(cfg: Config, t: TypeSpec, pointer: bool, base: int)
    requires Usable(cfg) && LaidOut(cfg, t) && PowerConfig(cfg) && Regular(cfg, t)
    requires Divides(Effective(cfg, t, pointer), base)
    ensures Aligned(cfg, t, pointer, base)
    decreases t, 2
  {
    if pointer || t.Basic? || t.Enum? || (t.Compound? && t.body.decls == []) {
    } else if t.TypeRef? {
      ItemsAligned(cfg, t.typedef.typ, t.typedef.decl, base);
    } else {
      var s := t.body;
      assert StructLaidOut(cfg, s);
      StructAligned(cfg, s);
      forall sd | sd in s.decls
        ensures DeclAligned(cfg, sd, base)
      {
        DeclLeavesAligned(cfg, sd, base, s.align);
      }
    }
  }

  lemma {:induction false} DeclLeavesAligned(cfg: Config, sd: StructDecl, base: int, a: nat)
    requires Usable(cfg) && LaidOut(cfg, sd.typ) && PowerConfig(cfg) && Regular(cfg, sd.typ)
    requires DeclInPlace(cfg, sd, a) && Power(a) && a <= Limit(cfg) && Divides(a, base)
    ensures DeclAligned(cfg, sd, base)
    decreases sd
  {
    if sd.declarators == [] {
      ItemPower(cfg, sd.typ, false);
      MemberBase(cfg, base, sd.offset, ItemInfo(cfg.lp, sd.typ, false).align, a);
      LeavesAligned(cfg, sd.typ, false, base + sd.offset);
    } else {
      forall d | d in sd.declarators
        ensures AllAligned(cfg, sd.typ, d, base + d.offset)
      {
        ItemPower(cfg, sd.typ, d.pointer);
        MemberBase(cfg, base, d.offset, ItemInfo(cfg.lp, sd.typ, d.pointer).align, a);
        ItemsAligned(cfg, sd.typ, d, base + d.offset);
      }
    }
  }
}
