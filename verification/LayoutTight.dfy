/**
 Exactly where plain members go and how large a compound gets: as early, and as small, as alignment allows.
 */
module LayoutTight {
  import Bits
  import opened CTypes
  import opened Bitfields
  import BitfieldSafety
  import opened Layout
  import opened LayoutSafety

  // ----- Alignments -----

  /** The limit on the alignment of members. */
  ghost function LimitOf(cfg: Config, s: Struct): nat {
    if s.pack > 0 then s.pack else if cfg.lp.alignment > 0 then cfg.lp.alignment else cfg.lp.nativeAlignment
  }

  /** The least alignment of a compound. */
  ghost function LeastAlign(cfg: Config, s: Struct): nat {
    var least := if cfg.lp.compoundAlignment > 0 then cfg.lp.compoundAlignment else cfg.lp.nativeCompoundAlignment;
    if LimitOf(cfg, s) < least then LimitOf(cfg, s) else least
  }

  ghost function EffectiveAlign(align: nat, limit: nat): nat {
    if align > limit then limit else align
  }

  /** The first multiple of the alignment at or after n. */
  ghost predicate NextAt(n: nat, align: nat, r: int)
    requires align > 0
  {
    n <= r < n + align && r % align == 0
  }

  lemma Rounds(n: nat, align: nat)
    requires align > 0
    ensures NextAt(n, align, RoundUp(n, align))
  {
    if n % align > 0 {
      Bits.DivMod(n, align);
      Bits.Distribute(n / align, 1, align);
      Bits.DivModUnique(n + (align - n % align), align, n / align + 1, 0);
    }
  }

  // ----- One member -----

  /** A plain member or unnamed compound, after whatever run of bitfields was open. */
  lemma {:induction false} MemberTight(c: Context, p: Progress, size: nat, align: nat)
    requires ProgressOk(c, p) && align > 0
    ensures var (q, offset) := PlaceMember(c, p, size, align);
      var end, a := Finished(p), EffectiveAlign(align, c.limit);
      && q.open == None && (q.align == if a > end.align then a else end.align)
      && if c.isUnion then offset == 0 && q.size == if size > end.size then size else end.size
         else NextAt(end.size, a, offset) && q.size == offset + size
  {
    FinishKeeps(c, p);
    Rounds(Finished(p).size, EffectiveAlign(align, c.limit));
  }

  /** A run of bitfields starts where the members before it end, in a union at its start, with nothing in use, in the
      byte order and under the alignment limit of the compound. */
  lemma {:induction false} RunStarts(c: Context, p: Progress)
    requires ProgressOk(c, p) && p.open == None
    ensures var e, start := RunEngine(c, p), if c.isUnion then 0 else p.size;
      && Offset(e) == start && BitfieldSafety.Cursor(e) == 8 * start && Alignment(e) == p.align
      && MaxAlignment(e) == c.limit && Order(e) == c.lp.order
      && if c.cls.GenericClass? then e.Generic? && e.unit.typeSize == 0
         else if c.cls.MicrosoftClass? then e.Microsoft? && e.unit.typeSize == 0
         else e.Simple? && e.block.blockSize == c.blockSize
  {
    StartedSane(c, if c.isUnion then 0 else p.size, p.align);
  }

  /** Any compound, bitfields or not, ends at the first multiple of its alignment after its contents. */
  lemma {:induction false} CompoundPadded(cfg: Config, s: Struct)
    requires Usable(cfg) && DeclsOk(ContextOf(cfg, s), s.decls)
    ensures var end := Finished(PlaceDecls(ContextOf(cfg, s), Resumed(cfg, s), s.decls).0);
      && PlaceStruct(cfg, s).align == end.align > 0
      && NextAt(end.size, end.align, PlaceStruct(cfg, s).size)
    ensures Resumed(cfg, s) == Progress(s.size, LeastAlign(cfg, s), None)
    ensures ContextOf(cfg, s) == Context(cfg.lp, s.isUnion, LimitOf(cfg, s), cfg.cls, cfg.blockSize)
  {
    var p := PlaceDecls(ContextOf(cfg, s), Resumed(cfg, s), s.decls).0;
    FinishKeeps(ContextOf(cfg, s), p);
    Rounds(Finished(p).size, Finished(p).align);
  }

  // ----- All members -----

  /** A member's own offset and size, and its effective alignment. */
  datatype Slot = Slot(offset: int, size: int, align: nat)

  ghost function DeclaratorSlots(lp: LayoutParam, limit: nat, t: TypeSpec, ds: seq<Declarator>): (r: seq<Slot>)
    requires Sized(lp, t)
    ensures |r| == |ds|
  {
    if ds == [] then []
    else
      var d := ds[|ds| - 1];
      DeclaratorSlots(lp, limit, t, ds[..|ds| - 1])
      + [Slot(d.offset, d.size, EffectiveAlign(ItemInfo(lp, t, d.pointer).align, limit))]
  }

  ghost function DeclSlots(lp: LayoutParam, limit: nat, sd: StructDecl): seq<Slot>
    requires Sized(lp, sd.typ)
  {
    var i := ItemInfo(lp, sd.typ, false);
    if sd.declarators == [] then [Slot(sd.offset, i.size, EffectiveAlign(i.align, limit))]
    else DeclaratorSlots(lp, limit, sd.typ, sd.declarators)
  }

  ghost function Slots(lp: LayoutParam, limit: nat, decls: seq<StructDecl>): seq<Slot>
    requires forall sd | sd in decls :: Sized(lp, sd.typ)
  {
    if decls == [] then []
    else Slots(lp, limit, decls[..|decls| - 1]) + DeclSlots(lp, limit, decls[|decls| - 1])
  }

  /** Where the members before index k end. */
  ghost function EndBefore(xs: seq<Slot>, k: nat, start: int): int
    requires k <= |xs|
  {
    if k == 0 then start else xs[k - 1].offset + xs[k - 1].size
  }

  /** Every member is at the first place its alignment allows after the one before. */
  ghost predicate Tight(xs: seq<Slot>, start: int) {
    forall k | 0 <= k < |xs| ::
      var end := EndBefore(xs, k, start);
      xs[k].align > 0 && xs[k].size >= 0 && end >= 0 && NextAt(end, xs[k].align, xs[k].offset)
  }

  /** a is the largest of the alignments and the least one. */
  ghost predicate Largest(xs: seq<Slot>, least: nat, a: nat) {
    && least <= a && (forall x | x in xs :: x.align <= a)
    && (a == least || exists x | x in xs :: x.align == a)
  }

  lemma {:induction false} TightConcat(xs: seq<Slot>, ys: seq<Slot>, start: int)
    requires Tight(xs, start) && Tight(ys, EndBefore(xs, |xs|, start))
    ensures Tight(xs + ys, start)
    ensures EndBefore(xs + ys, |xs + ys|, start) == EndBefore(ys, |ys|, EndBefore(xs, |xs|, start))
  {
    var zs := xs + ys;
    forall k | 0 <= k < |zs|
      ensures var end := EndBefore(zs, k, start);
        zs[k].align > 0 && zs[k].size >= 0 && end >= 0 && NextAt(end, zs[k].align, zs[k].offset)
    {
      if k < |xs| {
        assert zs[k] == xs[k] && EndBefore(zs, k, start) == EndBefore(xs, k, start);
      } else {
        var j := k - |xs|;
        assert zs[k] == ys[j] && EndBefore(zs, k, start) == EndBefore(ys, j, EndBefore(xs, |xs|, start));
      }
    }
  }

  lemma {:induction false} LargestConcat(xs: seq<Slot>, ys: seq<Slot>, least: nat, a: nat, b: nat)
    requires Largest(xs, least, a) && Largest(ys, a, b)
    ensures Largest(xs + ys, least, b)
  {
    if b != a {
      var y :| y in ys && y.align == b;
      assert y in xs + ys;
    } else if a != least {
      var x :| x in xs && x.align == a;
      assert x in xs + ys;
    }
  }

  /** What the slots of members placed from p to q say. */
  ghost predicate Fit(xs: seq<Slot>, p: Progress, q: Progress) {
    && q.open == None && Largest(xs, p.align, q.align)
    && Tight(xs, p.size) && q.size == EndBefore(xs, |xs|, p.size)
  }

  lemma {:induction false} OneFits(c: Context, p: Progress, size: nat, align: nat, x: Slot)
    requires ProgressOk(c, p) && p.open == None && !c.isUnion && align > 0
    requires x == Slot(PlaceMember(c, p, size, align).1, size, EffectiveAlign(align, c.limit))
    ensures Fit([x], p, PlaceMember(c, p, size, align).0)
  {
    MemberTight(c, p, size, align);
    assert [x][0] == x;
  }

  lemma {:induction false} FitConcat(xs: seq<Slot>, ys: seq<Slot>, p: Progress, q: Progress, r: Progress)
    requires Fit(xs, p, q) && Fit(ys, q, r)
    ensures Fit(xs + ys, p, r)
  {
    TightConcat(xs, ys, p.size);
    LargestConcat(xs, ys, p.align, q.align, r.align);
  }

  lemma {:induction false} DeclaratorsFit(c: Context, p: Progress, t: TypeSpec, ds: seq<Declarator>)
    requires ProgressOk(c, p) && p.open == None && DeclaratorsOk(c, t, ds) && !c.isUnion
    requires (forall d | d in ds :: !d.ext.Bitfield?) && PlaceDeclarators(c, p, t, ds).decls == ds
    ensures Fit(DeclaratorSlots(c.lp, c.limit, t, ds), p, PlaceDeclarators(c, p, t, ds).p)
  {
    if ds != [] {
      var q, d := PlaceDeclarators(c, p, t, ds[..|ds| - 1]), ds[|ds| - 1];
      SplitDeclarators(c, p, t, ds);
      DeclaratorsFit(c, p, t, ds[..|ds| - 1]);
      var i := TypeInfo(c.lp, t, d);
      assert PlaceDeclarator(c, q, t, d).decls[|q.decls|] == d;
      OneFits(c, q.p, i.size, i.align, Slot(d.offset, d.size, EffectiveAlign(i.align, c.limit)));
      FitConcat(DeclaratorSlots(c.lp, c.limit, t, ds[..|ds| - 1]),
                [Slot(d.offset, d.size, EffectiveAlign(i.align, c.limit))], p, q.p, PlaceDeclarators(c, p, t, ds).p);
    }
  }

  lemma {:induction false} DeclFits(c: Context, p: Progress, sd: StructDecl)
    requires ProgressOk(c, p) && p.open == None && DeclOk(c, sd) && !c.isUnion
    requires NoBitfields(sd) && PlaceDecl(c, p, sd).1 == sd
    ensures Fit(DeclSlots(c.lp, c.limit, sd), p, PlaceDecl(c, p, sd).0)
  {
    if sd.declarators == [] {
      var i := ItemInfo(c.lp, sd.typ, false);
      OneFits(c, p, i.size, i.align, Slot(sd.offset, i.size, EffectiveAlign(i.align, c.limit)));
    } else {
      assert PlaceDeclarators(c, p, sd.typ, sd.declarators).decls == sd.declarators;
      DeclaratorsFit(c, p, sd.typ, sd.declarators);
    }
  }

  lemma {:induction false} DeclsFit(c: Context, p: Progress, decls: seq<StructDecl>)
    requires ProgressOk(c, p) && p.open == None && DeclsOk(c, decls) && !c.isUnion
    requires (forall sd | sd in decls :: NoBitfields(sd)) && PlaceDecls(c, p, decls).1 == decls
    ensures Fit(Slots(c.lp, c.limit, decls), p, PlaceDecls(c, p, decls).0)
  {
    if decls != [] {
      var q, sd := PlaceDecls(c, p, decls[..|decls| - 1]), decls[|decls| - 1];
      SplitDecls(c, p, decls);
      DeclsFit(c, p, decls[..|decls| - 1]);
      DeclFits(c, q.0, sd);
      FitConcat(Slots(c.lp, c.limit, decls[..|decls| - 1]), DeclSlots(c.lp, c.limit, sd), p, q.0,
                PlaceDecls(c, p, decls).0);
    }
  }

  /** A laid-out struct without bitfields: its members follow one another from byte 0, each at the first place its
      effective alignment allows; its alignment is the largest of theirs and the least one; and its size is the
      first multiple of it after the last member. */
  lemma {:induction false} StructTight(cfg: Config, s: Struct)
    requires Usable(cfg) && StructLaidOut(cfg, s) && !s.isUnion && forall sd | sd in s.decls :: NoBitfields(sd)
    ensures var xs := Slots(cfg.lp, LimitOf(cfg, s), s.decls);
      && Tight(xs, 0) && Largest(xs, LeastAlign(cfg, s), s.align)
      && s.align > 0 && EndBefore(xs, |xs|, 0) >= 0 && NextAt(EndBefore(xs, |xs|, 0), s.align, s.size)
  {
    CompoundPadded(cfg, s.(size := 0));
    DeclsFit(ContextOf(cfg, s), Start(cfg, s), s.decls);
  }

  // ----- Unions -----

  /** All members start at byte 0, and m is the largest of their sizes and n. */
  ghost predicate Stacked(xs: seq<Slot>, n: nat, m: nat) {
    && n <= m && (forall x | x in xs :: x.offset == 0 && x.size <= m)
    && (m == n || exists x | x in xs :: x.size == m)
  }

  ghost predicate Stack(xs: seq<Slot>, p: Progress, q: Progress) {
    q.open == None && Largest(xs, p.align, q.align) && Stacked(xs, p.size, q.size)
  }

  lemma {:induction false} StackConcat(xs: seq<Slot>, ys: seq<Slot>, p: Progress, q: Progress, r: Progress)
    requires Stack(xs, p, q) && Stack(ys, q, r)
    ensures Stack(xs + ys, p, r)
  {
    LargestConcat(xs, ys, p.align, q.align, r.align);
    if r.size != q.size {
      var y :| y in ys && y.size == r.size;
      assert y in xs + ys;
    } else if q.size != p.size {
      var x :| x in xs && x.size == q.size;
      assert x in xs + ys;
    }
  }

  lemma {:induction false} OneStacks(c: Context, p: Progress, size: nat, align: nat, x: Slot)
    requires ProgressOk(c, p) && p.open == None && c.isUnion && align > 0
    requires x == Slot(0, size, EffectiveAlign(align, c.limit))
    ensures Stack([x], p, PlaceMember(c, p, size, align).0)
  {
    MemberTight(c, p, size, align);
    assert [x][0] == x;
  }

  lemma {:induction false} DeclaratorsStack(c: Context, p: Progress, t: TypeSpec, ds: seq<Declarator>)
    requires ProgressOk(c, p) && p.open == None && DeclaratorsOk(c, t, ds) && c.isUnion
    requires (forall d | d in ds :: !d.ext.Bitfield?) && PlaceDeclarators(c, p, t, ds).decls == ds
    ensures Stack(DeclaratorSlots(c.lp, c.limit, t, ds), p, PlaceDeclarators(c, p, t, ds).p)
    ensures PlaceDeclarators(c, p, t, ds).first == 0
  {
    if ds != [] {
      var q, d := PlaceDeclarators(c, p, t, ds[..|ds| - 1]), ds[|ds| - 1];
      SplitDeclarators(c, p, t, ds);
      DeclaratorsStack(c, p, t, ds[..|ds| - 1]);
      var i := TypeInfo(c.lp, t, d);
      assert PlaceDeclarator(c, q, t, d).decls[|q.decls|] == d;
      OneStacks(c, q.p, i.size, i.align, Slot(d.offset, d.size, EffectiveAlign(i.align, c.limit)));
      StackConcat(DeclaratorSlots(c.lp, c.limit, t, ds[..|ds| - 1]),
                  [Slot(d.offset, d.size, EffectiveAlign(i.align, c.limit))], p, q.p, PlaceDeclarators(c, p, t, ds).p);
    }
  }

  lemma {:induction false} DeclStacks(c: Context, p: Progress, sd: StructDecl)
    requires ProgressOk(c, p) && p.open == None && DeclOk(c, sd) && c.isUnion
    requires NoBitfields(sd) && PlaceDecl(c, p, sd).1 == sd
    ensures Stack(DeclSlots(c.lp, c.limit, sd), p, PlaceDecl(c, p, sd).0)
    ensures sd.offset == 0 && sd.size == PlaceDecl(c, p, sd).0.size
  {
    if sd.declarators == [] {
      var i := ItemInfo(c.lp, sd.typ, false);
      OneStacks(c, p, i.size, i.align, Slot(sd.offset, i.size, EffectiveAlign(i.align, c.limit)));
    } else {
      assert PlaceDeclarators(c, p, sd.typ, sd.declarators).decls == sd.declarators;
      DeclaratorsStack(c, p, sd.typ, sd.declarators);
    }
  }

  lemma {:induction false} DeclsStack(c: Context, p: Progress, decls: seq<StructDecl>)
    requires ProgressOk(c, p) && p.open == None && DeclsOk(c, decls) && c.isUnion
    requires (forall sd | sd in decls :: NoBitfields(sd)) && PlaceDecls(c, p, decls).1 == decls
    ensures Stack(Slots(c.lp, c.limit, decls), p, PlaceDecls(c, p, decls).0)
  {
    if decls != [] {
      var q, sd := PlaceDecls(c, p, decls[..|decls| - 1]), decls[|decls| - 1];
      SplitDecls(c, p, decls);
      DeclsStack(c, p, decls[..|decls| - 1]);
      DeclStacks(c, q.0, sd);
      StackConcat(Slots(c.lp, c.limit, decls[..|decls| - 1]), DeclSlots(c.lp, c.limit, sd), p, q.0,
                  PlaceDecls(c, p, decls).0);
    }
  }

  /** A laid-out union without bitfields: all members are at its start, its alignment is the largest of theirs and
      the least one, and its size the first multiple of it from the largest member on. */
  lemma {:induction false} UnionTight(cfg: Config, s: Struct)
    requires Usable(cfg) && StructLaidOut(cfg, s) && s.isUnion && forall sd | sd in s.decls :: NoBitfields(sd)
    ensures var xs := Slots(cfg.lp, LimitOf(cfg, s), s.decls);
      && Largest(xs, LeastAlign(cfg, s), s.align) && s.align > 0
      && exists need: nat :: Stacked(xs, 0, need) && NextAt(need, s.align, s.size)
  {
    CompoundPadded(cfg, s.(size := 0));
    DeclsStack(ContextOf(cfg, s), Start(cfg, s), s.decls);
    var xs, end := Slots(cfg.lp, LimitOf(cfg, s), s.decls), PlaceDecls(ContextOf(cfg, s), Start(cfg, s), s.decls).0;
    assert Stacked(xs, 0, end.size) && NextAt(end.size, s.align, s.size);
  }

  // ----- Sizes of types -----

  /** An array takes its items, a declarator that is laid out says so, and pointers take what pointers take. */
  lemma {:induction false} DeclaratorsMeasured(c: Context, p: Progress, t: TypeSpec, ds: seq<Declarator>)
    requires ProgressOk(c, p) && DeclaratorsOk(c, t, ds) && PlaceDeclarators(c, p, t, ds).decls == ds
    ensures forall d | d in ds && !d.ext.Bitfield? ::
      && d.itemSize == ItemInfo(c.lp, t, d.pointer).item
      && d.size == d.itemSize * Product(Dims(d))
  {
    if ds != [] {
      SplitDeclarators(c, p, t, ds);
      DeclaratorsMeasured(c, p, t, ds[..|ds| - 1]);
    }
  }

  /** The integer types of C by their names, in the sizes that are set. */
  lemma {:induction false} BasicSizes(lp: LayoutParam, sign: set<Flag>)
    requires sign <= {SIGNED, UNSIGNED}
    requires var s := lp.sizes;
      s.charSize > 0 && s.shortSize > 0 && s.intSize > 0 && s.longSize > 0 && s.longLongSize > 0
    ensures BasicSize(lp, sign + {CHAR}) == lp.sizes.charSize
    ensures BasicSize(lp, sign + {SHORT}) == BasicSize(lp, sign + {SHORT, INT}) == lp.sizes.shortSize
    ensures BasicSize(lp, sign) == BasicSize(lp, sign + {INT}) == lp.sizes.intSize
    ensures BasicSize(lp, sign + {LONG}) == BasicSize(lp, sign + {LONG, INT}) == lp.sizes.longSize
    ensures BasicSize(lp, sign + {LONG, LONGLONG}) == BasicSize(lp, sign + {LONG, LONGLONG, INT})
         == lp.sizes.longLongSize
  {
    assert forall f | f in {VOID, CHAR, SHORT, INT, LONG, FLOAT, DOUBLE, LONGLONG} :: f !in sign;
  }

  lemma {:induction false} OtherSizes(lp: LayoutParam)
    requires lp.sizes.floatSize > 0 && lp.sizes.doubleSize > 0 && lp.sizes.longDoubleSize > 0
    ensures BasicSize(lp, {FLOAT}) == lp.sizes.floatSize && BasicSize(lp, {DOUBLE}) == lp.sizes.doubleSize
    ensures BasicSize(lp, {LONG, DOUBLE}) == lp.sizes.longDoubleSize && BasicSize(lp, {VOID}) == 1
  {
  }

  /** A size that is not set is the native one. */
  lemma NativeSizes(lp: LayoutParam, flags: set<Flag>)
    ensures lp.sizes == Sizes(0, 0, 0, 0, 0, 0, 0, 0, 0) ==>
      BasicSize(lp, flags) == BasicSize(lp.(sizes := lp.native), flags)
      && PointerSize(lp) == lp.native.ptrSize
    ensures lp.sizes.ptrSize > 0 ==> PointerSize(lp) == lp.sizes.ptrSize
  {
  }

  /** Items are as large as their type, and aligned to it; a typedef takes what its declarator does. */
  lemma {:induction false} Items(lp: LayoutParam, t: TypeSpec, d: Declarator)
    requires Sized(lp, t)
    ensures ItemInfo(lp, t, true) == Info(PointerSize(lp), PointerSize(lp), PointerSize(lp), true)
    ensures t.Basic? ==> var n := BasicSize(lp, t.flags); ItemInfo(lp, t, false) == Info(n, n, n, true)
    ensures t.Enum? ==>
      var n := if lp.enumSize > 0 then lp.enumSize else t.sizes[-lp.enumSize];
      ItemInfo(lp, t, false) == Info(n, n, n, true)
    ensures t.Compound? ==>
      ItemInfo(lp, t, false) == if t.body.decls != [] then Info(t.body.size, t.body.align, t.body.size, true)
        else Info(BasicSize(lp, {}), BasicSize(lp, {}), BasicSize(lp, {}), false)
    ensures t.TypeRef? ==>
      var i, dims := ItemInfo(lp, t.typedef.typ, t.typedef.decl.pointer), Product(Dims(t.typedef.decl));
      ItemInfo(lp, t, false) == Info(i.item * dims, i.align, i.item * dims, i.known)
  {
  }
}
