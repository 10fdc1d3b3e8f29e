/**
 What a union's size is when some of its alternatives are bitfields. Finishing a bitfield there
 replaces the size that the alternatives before it needed, so the size covers all of them only under
 a condition, which is exact.
 */
module UnionLayout {
  import opened CTypes
  import opened Bitfields
  import opened BitfieldSafety
  import opened Layout

  /** An alternative: whether it is a bitfield, the bytes it takes and the alignment it asks for. */
  datatype Alternative = Alternative(field: bool, bytes: nat, align: nat)

  /** The bytes that a bitfield at the start of a union leads to. */
  function FieldBytes(c: Context, bits: nat, item: nat): nat {
    match c.cls
    case GenericClass => (bits + 7) / 8
    case MicrosoftClass => if bits == 0 then 0 else item
    case SimpleClass => c.blockSize
  }

  function OfDeclarator(c: Context, t: TypeSpec, d: Declarator): Alternative
    requires Sized(c.lp, t)
  {
    var i := TypeInfo(c.lp, t, d);
    if !d.ext.Bitfield? then Alternative(false, i.size, Min(i.align, c.limit))
    else Alternative(true, FieldBytes(c, d.ext.bits, i.item),
                     if c.cls.SimpleClass? then c.blockSize else Min(i.item, c.limit))
  }

  function OfDeclarators(c: Context, t: TypeSpec, ds: seq<Declarator>): (r: seq<Alternative>)
    requires Sized(c.lp, t)
    ensures |r| == |ds|
  {
    if ds == [] then [] else OfDeclarators(c, t, ds[..|ds| - 1]) + [OfDeclarator(c, t, ds[|ds| - 1])]
  }

  function OfDecl(c: Context, sd: StructDecl): seq<Alternative>
    requires Sized(c.lp, sd.typ)
  {
    var i := ItemInfo(c.lp, sd.typ, false);
    if sd.declarators == [] then [Alternative(false, i.size, Min(i.align, c.limit))]
    else OfDeclarators(c, sd.typ, sd.declarators)
  }

  /** The alternatives of a union, in the order of their declaration. */
  function OfDecls(c: Context, decls: seq<StructDecl>): seq<Alternative>
    requires forall sd | sd in decls :: Sized(c.lp, sd.typ)
  {
    if decls == [] then [] else OfDecls(c, decls[..|decls| - 1]) + OfDecl(c, decls[|decls| - 1])
  }

  /** What an alternative makes of the size and the alignment so far. */
  function Take(c: Context, p: Progress, a: Alternative): Progress {
    Progress(if a.field then a.bytes else Max(p.size, a.bytes),
             if a.field && c.cls.SimpleClass? then a.align else Max(p.align, a.align), None)
  }

  function TakeAll(c: Context, p: Progress, xs: seq<Alternative>): Progress {
    if xs == [] then p else Take(c, TakeAll(c, p, xs[..|xs| - 1]), xs[|xs| - 1])
  }

  lemma {:induction false} TakeConcat(c: Context, p: Progress, xs: seq<Alternative>, ys: seq<Alternative>)
    ensures TakeAll(c, p, xs + ys) == TakeAll(c, TakeAll(c, p, xs), ys)
  {
    if ys == [] {
      assert xs + ys == xs;
    } else {
      TakeConcat(c, p, xs, ys[..|ys| - 1]);
      assert (xs + ys)[..|xs + ys| - 1] == xs + ys[..|ys| - 1];
    }
  }

  // ----- Placing takes the alternatives one by one -----

  /** Where a placed declarator of a union is: at its start, a bitfield within the bytes it takes. */
  ghost predicate Lodged(c: Context, t: TypeSpec, d: Declarator)
    requires Sized(c.lp, t)
  {
    if !d.ext.Bitfield? then d.offset == 0
    else TakesRoom(d) ==>
      var f := FieldSpan(c.lp.order, d); 0 <= f.lo && f.hi <= 8 * OfDeclarator(c, t, d).bytes
  }

  lemma {:induction false} GenericFromStart(c: Context, align: nat, d: Declarator, item: nat)
    requires ContextOk(c) && c.cls == GenericClass && FieldOk(Started(c, 0, 1), d, item)
    ensures var e := Started(c, 0, align).unit;
      UnitFits(e, item, item) && var r := GenericFinalize(GenericPush(e, d, item, item).0);
      r.offset == (d.ext.bits + 7) / 8 && r.align == Max(align, Min(item, c.limit))
  {
    PushHere(Started(c, 0, align).unit, d, item);
  }

  lemma {:induction false} MicrosoftFromStart(c: Context, align: nat, d: Declarator, item: nat)
    requires ContextOk(c) && c.cls == MicrosoftClass && FieldOk(Started(c, 0, 1), d, item)
    ensures var e := Started(c, 0, align).unit;
      UnitFits(e, item, item) && var p := MicrosoftPush(e, d, item, item);
      p.Some? && var r := MicrosoftFinalize(p.value.0);
      r.offset == FieldBytes(c, d.ext.bits, item) && r.align == Max(align, Min(item, c.limit))
  {
  }

  /** The engine as a bitfield of a union leaves it. */
  lemma {:induction false} FromStart(c: Context, align: nat, d: Declarator, item: nat)
    requires ContextOk(c) && FieldOk(Started(c, 0, 1), d, item)
    ensures PushFits(Started(c, 0, align), d, item, item)
    ensures var p := PushField(Started(c, 0, align), d, item, item);
      p.Some? && var e := FinalizeEngine(p.value.0);
      && Offset(e) == FieldBytes(c, d.ext.bits, item)
      && Alignment(e) == if c.cls.SimpleClass? then c.blockSize else Max(align, Min(item, c.limit))
  {
    match c.cls
    case GenericClass => GenericFromStart(c, align, d, item);
    case MicrosoftClass => MicrosoftFromStart(c, align, d, item);
    case SimpleClass =>
  }

  lemma {:induction false} FieldTakes(c: Context, p: Progress, d: Declarator, item: nat)
    requires ProgressOk(c, p) && FieldOk(Started(c, 0, 1), d, item) && c.isUnion && p.open.None?
    ensures var q := PlaceBitfield(c, p, d, item);
      && q.0.open.None? && q.0.size == FieldBytes(c, d.ext.bits, item) && q.1.ext.bits == d.ext.bits
      && q.0.align == (if c.cls.SimpleClass? then c.blockSize else Max(p.align, Min(item, c.limit)))
      && (TakesRoom(d) ==> var f := FieldSpan(c.lp.order, q.1); 0 <= f.lo && f.hi <= 8 * q.0.size)
  {
    var e := RunEngine(c, p);
    assert e == Started(c, 0, p.align);
    StartedSane(c, 0, p.align);
    FromStart(c, p.align, d, item);
    PushLands(e, d, item);
    FinalizeLands(PushField(e, d, item, item).value.0);
    assert Order(e) == c.lp.order;
  }

  lemma {:induction false} DeclaratorTakes(c: Context, r: Placed, t: TypeSpec, d: Declarator)
    requires ProgressOk(c, r.p) && MemberOk(c, t, d) && ItemInfo(c.lp, t, d.pointer).align > 0
    requires c.isUnion && r.p.open.None?
    ensures var q := PlaceDeclarator(c, r, t, d);
      && q.p == Take(c, r.p, OfDeclarator(c, t, d)) && q.first == r.first
      && (q.decls == r.decls + [d] ==> Lodged(c, t, d))
  {
    var q := PlaceDeclarator(c, r, t, d);
    assert q.decls == r.decls + [d] ==> q.decls[|r.decls|] == d;
    if d.ext.Bitfield? {
      FieldTakes(c, r.p, d, TypeInfo(c.lp, t, d).item);
    }
  }

  lemma {:induction false} DeclaratorsTake(c: Context, p: Progress, t: TypeSpec, ds: seq<Declarator>)
    requires ProgressOk(c, p) && DeclaratorsOk(c, t, ds) && c.isUnion && p.open.None?
    ensures var r := PlaceDeclarators(c, p, t, ds);
      && r.p == TakeAll(c, p, OfDeclarators(c, t, ds)) && r.p.open.None? && r.first == 0
      && (r.decls == ds ==> forall d | d in ds :: Lodged(c, t, d))
  {
    if ds != [] {
      var q, d := PlaceDeclarators(c, p, t, ds[..|ds| - 1]), ds[|ds| - 1];
      DeclaratorsTake(c, p, t, ds[..|ds| - 1]);
      DeclaratorTakes(c, q, t, d);
    }
  }

  lemma {:induction false} DeclTakes(c: Context, p: Progress, sd: StructDecl)
    requires ProgressOk(c, p) && DeclOk(c, sd) && c.isUnion && p.open.None?
    ensures var r := PlaceDecl(c, p, sd);
      && r.0 == TakeAll(c, p, OfDecl(c, sd)) && r.0.open.None? && r.1.offset == 0
      && (r.1 == sd ==> forall d | d in sd.declarators :: Lodged(c, sd.typ, d))
  {
    if sd.declarators == [] {
      var a := OfDecl(c, sd);
      assert a[..0] == [] && TakeAll(c, p, a) == Take(c, TakeAll(c, p, a[..0]), a[0]);
    } else {
      DeclaratorsTake(c, p, sd.typ, sd.declarators);
    }
  }

  /** All alternatives of a placed declaration start at the union's start. */
  ghost predicate DeclLodged(c: Context, sd: StructDecl)
    requires Sized(c.lp, sd.typ)
  {
    sd.offset == 0 && forall d | d in sd.declarators :: Lodged(c, sd.typ, d)
  }

  lemma {:induction false} DeclsTake(c: Context, p: Progress, decls: seq<StructDecl>)
    requires ProgressOk(c, p) && DeclsOk(c, decls) && c.isUnion && p.open.None?
    ensures var r := PlaceDecls(c, p, decls);
      && r.0 == TakeAll(c, p, OfDecls(c, decls)) && r.0.open.None?
      && (r.1 == decls ==> forall sd | sd in decls :: DeclLodged(c, sd))
  {
    if decls != [] {
      var k := |decls| - 1;
      var q := PlaceDecls(c, p, decls[..k]);
      DeclsTake(c, p, decls[..k]);
      DeclTakes(c, q.0, decls[k]);
      TakeConcat(c, p, OfDecls(c, decls[..k]), OfDecl(c, decls[k]));
      var r := PlaceDecl(c, q.0, decls[k]);
      if q.1 + [r.1] == decls {
        LastPart(q.1, r.1, decls);
      }
    }
  }

  lemma LastPart<T>(a: seq<T>, x: T, b: seq<T>)
    requires a + [x] == b
    ensures a == b[..|b| - 1] && x == b[|b| - 1] && forall y | y in b :: y in a || y == x
  {
  }

  // ----- The size -----

  predicate Covers(xs: seq<Alternative>, n: nat) {
    forall i | 0 <= i < |xs| :: xs[i].bytes <= n
  }

  /** Where the last bitfield is; 0 if there is none. */
  function LastField(xs: seq<Alternative>): (k: nat)
    ensures k <= |xs|
    ensures forall i | k < i < |xs| :: !xs[i].field
  {
    if xs == [] then 0
    else if xs[|xs| - 1].field then |xs| - 1
    else LastField(xs[..|xs| - 1])
  }

  predicate HasField(xs: seq<Alternative>) {
    xs != [] && (xs[|xs| - 1].field || HasField(xs[..|xs| - 1]))
  }

  function MaxBytes(xs: seq<Alternative>): (n: nat)
    ensures Covers(xs, n)
    ensures n == 0 || exists i | 0 <= i < |xs| :: xs[i].bytes == n
  {
    if xs == [] then 0 else Max(MaxBytes(xs[..|xs| - 1]), xs[|xs| - 1].bytes)
  }

  /** Only the last bitfield and what comes after it count. */
  lemma {:induction false} SizeTaken(c: Context, p: Progress, xs: seq<Alternative>)
    ensures TakeAll(c, p, xs).size == Max(if HasField(xs) then 0 else p.size, MaxBytes(xs[LastField(xs)..]))
  {
    if xs != [] {
      var k, l := |xs| - 1, LastField(xs);
      SizeTaken(c, p, xs[..k]);
      assert xs[l..][..|xs[l..]| - 1] == if xs[k].field then [] else xs[..k][l..];
    }
  }

  /** The size of a union, and when it covers all alternatives: exactly when each one declared before the
      last bitfield fits into what that bitfield and the alternatives after it need, rounded up. */
  lemma {:induction false} UnionCoversExact(cfg: Config, s: Struct)
    requires Usable(cfg) && DeclsOk(ContextOf(cfg, s), s.decls) && s.isUnion
    ensures var c, xs := ContextOf(cfg, s), OfDecls(ContextOf(cfg, s), s.decls);
      var k, align := LastField(xs), TakeAll(c, Resumed(cfg, s), xs).align;
      var need := Max(if HasField(xs) then 0 else s.size, MaxBytes(xs[k..]));
      && align > 0 && PlaceStruct(cfg, s).align == align
      && PlaceStruct(cfg, s).size == RoundUp(need, align)
      && (Covers(xs, PlaceStruct(cfg, s).size) <==> Covers(xs[..k], RoundUp(need, align)))
  {
    var c, xs := ContextOf(cfg, s), OfDecls(ContextOf(cfg, s), s.decls);
    var k := LastField(xs);
    DeclsTake(c, Resumed(cfg, s), s.decls);
    SizeTaken(c, Resumed(cfg, s), xs);
    var n := PlaceStruct(cfg, s).size;
    if Covers(xs[..k], n) {
      forall i | 0 <= i < |xs|
        ensures xs[i].bytes <= n
      {
        assert xs[i] == if i < k then xs[..k][i] else xs[k..][i - k];
      }
    }
  }

  // ----- Where it goes wrong -----

  const Byte := Basic({CHAR})

  /** `union { char x[10]; char b:1; }` */
  function Overwritten(): Struct {
    Struct(true, 0,
           [StructDecl(Byte, [Declarator("x", false, Array([10]), -1, -1, -1, None)], 0, 0),
            StructDecl(Byte, [Declarator("b", false, Bitfield(1, 0, 0), -1, -1, -1, None)], 0, 0)], 0, 0, None)
  }

  ghost predicate ByteConfig(cfg: Config) {
    Usable(cfg) && cfg.cls == GenericClass && cfg.lp.sizes.charSize == 1 && cfg.lp.compoundAlignment == 1
  }

  lemma {:induction false} OverwrittenFits(cfg: Config)
    requires ByteConfig(cfg)
    ensures DeclsOk(ContextOf(cfg, Overwritten()), Overwritten().decls)
  {
    assert ItemInfo(cfg.lp, Byte, false) == Info(1, 1, 1, true);
  }

  lemma {:induction false} OverwrittenAlternatives(cfg: Config, c: Context)
    requires ByteConfig(cfg) && c == ContextOf(cfg, Overwritten())
    ensures OfDecls(c, Overwritten().decls) == [Alternative(false, 10, 1), Alternative(true, 1, 1)]
  {
    var sds := Overwritten().decls;
    assert ItemInfo(cfg.lp, Byte, false) == Info(1, 1, 1, true);
    assert Product([10]) == 10 by { assert [10][1..] == []; }
    OneAlternative(c, sds[0]);
    OneAlternative(c, sds[1]);
    TwoDecls(c, sds[0], sds[1]);
    assert [sds[0], sds[1]] == sds;
  }

  lemma OneAlternative(c: Context, sd: StructDecl)
    requires Sized(c.lp, sd.typ) && |sd.declarators| == 1
    ensures OfDecl(c, sd) == [OfDeclarator(c, sd.typ, sd.declarators[0])]
  {
    assert sd.declarators[..0] == [];
  }

  lemma {:induction false} TwoDecls(c: Context, x: StructDecl, y: StructDecl)
    requires Sized(c.lp, x.typ) && Sized(c.lp, y.typ)
    ensures OfDecls(c, [x, y]) == OfDecl(c, x) + OfDecl(c, y)
  {
    assert [x, y][..1] == [x] && [x][..0] == [];
    assert OfDecls(c, [x]) == OfDecls(c, []) + OfDecl(c, x);
  }

  lemma TakeTwo(c: Context, p: Progress, x: Alternative, y: Alternative)
    ensures TakeAll(c, p, [x, y]) == Take(c, Take(c, p, x), y)
  {
    assert [x, y][..1] == [x] && [x][..0] == [];
    assert TakeAll(c, p, [x]) == Take(c, TakeAll(c, p, []), x);
  }

  lemma LastOfTwo(x: Alternative, y: Alternative)
    requires y.field
    ensures LastField([x, y]) == 1 && HasField([x, y]) && MaxBytes([x, y][1..]) == y.bytes
  {
    assert [x, y][1..] == [y] && [y][..0] == [];
    assert MaxBytes([y]) == Max(MaxBytes([]), y.bytes);
  }

  /** The size of a union of two alternatives, the second one a bitfield. */
  lemma {:induction false} TwoAlternatives(cfg: Config, s: Struct, x: Alternative, y: Alternative)
    requires Usable(cfg) && DeclsOk(ContextOf(cfg, s), s.decls) && s.isUnion && y.field && !cfg.cls.SimpleClass?
    requires OfDecls(ContextOf(cfg, s), s.decls) == [x, y]
    ensures var align := Max(Max(Resumed(cfg, s).align, x.align), y.align);
      align > 0 && PlaceStruct(cfg, s).size == RoundUp(y.bytes, align)
  {
    UnionCoversExact(cfg, s);
    TakeTwo(ContextOf(cfg, s), Resumed(cfg, s), x, y);
    LastOfTwo(x, y);
  }

  /** This union has one byte, although its first alternative has ten. */
  lemma {:induction false} OverwrittenSize(cfg: Config)
    requires ByteConfig(cfg)
    ensures DeclsOk(ContextOf(cfg, Overwritten()), Overwritten().decls)
    ensures PlaceStruct(cfg, Overwritten()).size == 1
    ensures !Covers(OfDecls(ContextOf(cfg, Overwritten()), Overwritten().decls), PlaceStruct(cfg, Overwritten()).size)
  {
    var s, x, y := Overwritten(), Alternative(false, 10, 1), Alternative(true, 1, 1);
    OverwrittenFits(cfg);
    OverwrittenAlternatives(cfg, ContextOf(cfg, s));
    TwoAlternatives(cfg, s, x, y);
    assert [x, y][0].bytes == 10;
  }
}
