/**
 Packing a value and unpacking the buffer gives the value back, bitfields that share bytes with
 their neighbours included: every member changes only its own bits and is read from them alone.
 */
module PackingRoundTrip {
  import opened IntegerMemory
  import opened CTypes
  import opened Bitfields
  import opened BitfieldSafety
  import opened Layout
  import opened LayoutSafety
  import opened PackBuffer
  import opened Packing

  // ----- The types the claim is about -----

  /** The names that a declaration adds to the hash. */
  ghost function MemberNames(ds: seq<Declarator>): set<string> {
    if ds == [] then {}
    else
      var d := ds[|ds| - 1];
      MemberNames(ds[..|ds| - 1]) + if d.name != [] then {d.name} else {}
  }

  ghost function DeclNames(sd: StructDecl): set<string>
    decreases sd
  {
    if sd.declarators == [] then TypeNames(sd.typ) else MemberNames(sd.declarators)
  }

  ghost function TypeNames(t: TypeSpec): set<string>
    decreases t
  {
    match t
    case Compound(s) => Names(s.decls)
    case TypeRef(td) => TypeNames(td.typ)
    case _ => {}
  }

  ghost function Names(decls: seq<StructDecl>): set<string>
    decreases decls
  {
    if decls == [] then {} else Names(decls[..|decls| - 1]) + DeclNames(decls[|decls| - 1])
  }

  /** No name comes twice. */
  ghost predicate UniqueMembers(ds: seq<Declarator>) {
    if ds == [] then true
    else
      var d := ds[|ds| - 1];
      UniqueMembers(ds[..|ds| - 1]) && (d.name != [] ==> d.name !in MemberNames(ds[..|ds| - 1]))
  }

  ghost predicate UniqueDecls(decls: seq<StructDecl>) {
    if decls == [] then true
    else
      var sd := decls[|decls| - 1];
      UniqueDecls(decls[..|decls| - 1]) && Names(decls[..|decls| - 1]) !! DeclNames(sd) && UniqueMembers(sd.declarators)
  }

  /** No unions, and no name twice in a compound. */
  ghost predicate Simply(t: TypeSpec) {
    match t
    case TypeRef(td) => td.decl.pointer || Simply(td.typ)
    case Compound(s) => !s.isUnion && UniqueDecls(s.decls) && forall sd | sd in s.decls :: SimplyDecl(sd)
    case Basic(flags) => !(CHAR in flags && LONGLONG in flags)
    case _ => true
  }

  ghost predicate SimplyDecl(sd: StructDecl) {
    && (sd.declarators == [] ==> Simply(sd.typ))
    && forall d | d in sd.declarators && !d.pointer && d.name != [] :: Simply(sd.typ)
  }

  /** A declarator that is laid out, and can be packed. */
  ghost predicate Ready(pc: PackConfig, t: TypeSpec, d: Declarator, bi: Option<BitInfo>)
    requires Usable(pc.cfg)
  {
    && LaidOut(pc.cfg, t) && DeclPackable(pc, t, d, bi) && (d.pointer || Simply(t))
    && (d.ext.Array? ==> d.itemSize == ItemInfo(pc.cfg.lp, t, d.pointer).item)
  }

  // ----- Where an item's bits are -----

  function FieldLeaf(f: BitInfo): Leaf {
    Leaf(f.bytes, f.bits, f.pos, false)
  }

  function SpanLo(pc: PackConfig, pos: nat, bi: Option<BitInfo>): int {
    if bi.Some? then LeafLo(pc.cfg.lp.order, pos, FieldLeaf(bi.value)) else 8 * pos
  }

  function SpanHi(pc: PackConfig, pos: nat, bi: Option<BitInfo>, size: nat): int {
    if bi.Some? then LeafHi(pc.cfg.lp.order, pos, FieldLeaf(bi.value)) else 8 * (pos + size)
  }

  /** Bytes of what is left of a declarator after dim indices. */
  ghost function Left(pc: PackConfig, t: TypeSpec, d: Declarator, dim: nat): nat
    requires Sized(pc.cfg.lp, t)
  {
    ItemInfo(pc.cfg.lp, t, d.pointer).item * if dim <= |Dims(d)| then Product(Dims(d)[dim..]) else 1
  }

  lemma {:induction false} LeftIs(pc: PackConfig, t: TypeSpec, d: Declarator, dim: nat)
    requires Sized(pc.cfg.lp, t) && dim <= |Dims(d)|
    ensures dim == |Dims(d)| ==> Left(pc, t, d, dim) == ItemInfo(pc.cfg.lp, t, d.pointer).item
    ensures dim < |Dims(d)| ==> Left(pc, t, d, dim) == Dims(d)[dim] * Left(pc, t, d, dim + 1)
    ensures dim == 0 ==> Left(pc, t, d, dim) == TypeInfo(pc.cfg.lp, t, d).size
  {
    var dims := Dims(d);
    var item := ItemInfo(pc.cfg.lp, t, d.pointer).item;
    if dim < |dims| {
      assert dims[dim..][1..] == dims[dim + 1..];
      Swapped(item, dims[dim], Product(dims[dim + 1..]));
    } else {
      assert dims[dim..] == [];
    }
    assert dims[0..] == dims;
  }

  lemma Swapped(a: int, b: int, c: int)
    ensures a * (b * c) == b * (a * c)
  {
  }

  lemma {:induction false} StrideIs(pc: PackConfig, t: TypeSpec, d: Declarator, dim: nat)
    requires Sized(pc.cfg.lp, t) && d.ext.Array? && dim < |d.ext.dims|
    requires d.itemSize == ItemInfo(pc.cfg.lp, t, d.pointer).item > 0
    ensures Stride(d, dim) == Left(pc, t, d, dim + 1)
  {
  }

  // ----- What packing changes -----

  lemma {:induction false} IntChanges(pc: PackConfig, b: seq<byte>, pos: nat, l: Leaf, order: ByteOrder, v: Datum)
    requires LeafOk(pc.word, l)
    ensures var o := pc.cfg.lp.order;
      ChangesOnly(o, b, PackedInt(pc, b, pos, l, order, v), LeafLo(o, pos, l), LeafHi(o, pos, l))
  {
    var o := pc.cfg.lp.order;
    if v.Num? {
      WriteChanges(pc.word, o, b, pos, l, LeafOrder(pc, order, l), PatternOf(pc.word, v.value));
    } else {
      GrowChanges(o, b, pos + l.size, LeafLo(o, pos, l), LeafHi(o, pos, l));
    }
  }

  lemma {:induction false} GrowChanges(o: ByteOrder, b: seq<byte>, n: nat, lo: int, hi: int)
    ensures ChangesOnly(o, b, Grown(b, n), lo, hi)
  {
    forall i: int | !(lo <= i < hi)
      ensures BufferBit(o, b, i) == BufferBit(o, Grown(b, n), i)
    {
      GrownBits(o, b, n, i);
    }
  }

  /** A leaf of a bitfield or of a whole item covers the span. */
  ghost predicate Covers(pc: PackConfig, l: Leaf, bi: Option<BitInfo>, size: nat) {
    if bi.Some? then l.size == bi.value.bytes && l.bits == bi.value.bits && l.shift == bi.value.pos && l.bits > 0
    else l.bits == 0 && l.size == size
  }

  /** Named bitfields have a width. */
  ghost predicate BitsOk(bi: Option<BitInfo>) {
    bi.Some? ==> bi.value.bits > 0
  }

  ghost function LeafOf(pc: PackConfig, t: TypeSpec, bi: Option<BitInfo>): (l: Leaf)
    requires Packable(pc, t, bi) && (t.Basic? || t.Enum?)
    ensures LeafOk(pc.word, l)
  {
    if t.Enum? then EnumLeaf(pc, t.sizes, t.signed, bi) else BasicLeaf(pc, t.flags, bi)
  }

  ghost function LeafTag(t: TypeSpec, order: ByteOrder): ByteOrder {
    if t.Enum? then Tagged(order, t.order) else order
  }

  lemma {:induction false} LeafCovers(pc: PackConfig, t: TypeSpec, bi: Option<BitInfo>)
    requires Sized(pc.cfg.lp, t) && Packable(pc, t, bi) && Simply(t) && BitsOk(bi) && (t.Basic? || t.Enum?)
    ensures Covers(pc, LeafOf(pc, t, bi), bi, ItemInfo(pc.cfg.lp, t, false).item)
  {
  }

  lemma {:induction false} TypeChanges(pc: PackConfig, b: seq<byte>, pos: nat, order: ByteOrder, t: TypeSpec,
                                       d: Declarator, dim: nat, bi: Option<BitInfo>, v: Datum)
    requires Usable(pc.cfg) && Ready(pc, t, d, bi) && BitsOk(bi) && dim <= |Dims(d)|
    ensures ChangesOnly(pc.cfg.lp.order, b, PackedType(pc, b, pos, order, t, d, dim, bi, v),
                        SpanLo(pc, pos, bi), SpanHi(pc, pos, bi, Left(pc, t, d, dim)))
    decreases t, 1, 2 * (|Dims(d)| - dim) + 1, 1
  {
    if dim < |Dims(d)| {
      ArrayChanges(pc, b, pos, order, t, d, dim, bi, v);
    } else {
      ScalarChanges(pc, b, pos, order, t, d, dim, bi, v);
    }
  }

  lemma {:induction false} ArrayChanges(pc: PackConfig, b: seq<byte>, pos: nat, order: ByteOrder, t: TypeSpec,
                                        d: Declarator, dim: nat, bi: Option<BitInfo>, v: Datum)
    requires Usable(pc.cfg) && Ready(pc, t, d, bi) && BitsOk(bi) && dim < |Dims(d)|
    ensures ChangesOnly(pc.cfg.lp.order, b, PackedType(pc, b, pos, order, t, d, dim, bi, v),
                        SpanLo(pc, pos, bi), SpanHi(pc, pos, bi, Left(pc, t, d, dim)))
    decreases t, 1, 2 * (|Dims(d)| - dim) + 1, 0
  {
    LeftIs(pc, t, d, dim);
    if v.Arr? {
      var o := if dim == 0 then Tagged(order, d.order) else order;
      ElementIs(pos, d.ext.dims[dim], Left(pc, t, d, dim + 1));
      ItemsChange(pc, b, pos, o, t, d, dim, v.items, d.ext.dims[dim]);
    } else {
      GrowChanges(pc.cfg.lp.order, b, pos + d.itemSize * Product(d.ext.dims[dim..]), SpanLo(pc, pos, bi),
                  SpanHi(pc, pos, bi, Left(pc, t, d, dim)));
    }
  }

  lemma {:induction false} ScalarChanges(pc: PackConfig, b: seq<byte>, pos: nat, order: ByteOrder, t: TypeSpec,
                                         d: Declarator, dim: nat, bi: Option<BitInfo>, v: Datum)
    requires Usable(pc.cfg) && Ready(pc, t, d, bi) && BitsOk(bi) && dim == |Dims(d)|
    ensures ChangesOnly(pc.cfg.lp.order, b, PackedType(pc, b, pos, order, t, d, dim, bi, v),
                        SpanLo(pc, pos, bi), SpanHi(pc, pos, bi, Left(pc, t, d, dim)))
    decreases t, 1, 2 * (|Dims(d)| - dim) + 1, 0
  {
    var o := if dim == 0 then Tagged(order, d.order) else order;
    LeftIs(pc, t, d, dim);
    if d.pointer {
      IntChanges(pc, b, pos, PointerLeaf(pc), o, v);
    } else {
      ItemChanges(pc, b, pos, o, t, bi, v);
    }
  }

  lemma ElementGrows(pos: nat, k: nat, stride: nat)
    ensures pos <= Element(pos, k, stride)
  {
    ElementIs(pos, k, stride);
  }

  lemma {:induction false} ItemsChange(pc: PackConfig, b: seq<byte>, pos: nat, order: ByteOrder, t: TypeSpec,
                                       d: Declarator, dim: nat, items: seq<Datum>, n: nat)
    requires Usable(pc.cfg) && Ready(pc, t, d, None) && dim < |Dims(d)|
    ensures ChangesOnly(pc.cfg.lp.order, b, PackedItems(pc, b, pos, order, t, d, dim, items, n),
                        8 * pos, 8 * Element(pos, n, Left(pc, t, d, dim + 1)))
    decreases t, 1, 2 * (|Dims(d)| - dim), n
  {
    if n > 0 {
      var stride := Left(pc, t, d, dim + 1);
      StrideIs(pc, t, d, dim);
      var c := PackedItems(pc, b, pos, order, t, d, dim, items, n - 1);
      ItemsChange(pc, b, pos, order, t, d, dim, items, n - 1);
      var at, end := Element(pos, n - 1, stride), Element(pos, n, stride);
      ElementGrows(pos, n - 1, stride);
      if n - 1 < |items| {
        TypeChanges(pc, c, at, order, t, d, dim + 1, None, items[n - 1]);
        ChangesTrans(pc.cfg.lp.order, b, c, PackedItems(pc, b, pos, order, t, d, dim, items, n),
                     8 * pos, 8 * at, 8 * at, 8 * end);
      } else {
        ChangesWider(pc.cfg.lp.order, b, c, 8 * pos, 8 * at, 8 * pos, 8 * end);
      }
    }
  }

  lemma {:induction false} TypedefReady(pc: PackConfig, td: Typedef, bi: Option<BitInfo>)
    requires Usable(pc.cfg) && LaidOut(pc.cfg, TypeRef(td)) && Packable(pc, TypeRef(td), bi) && Simply(TypeRef(td))
    ensures Ready(pc, td.typ, td.decl, bi)
    ensures ItemInfo(pc.cfg.lp, TypeRef(td), false).item == Left(pc, td.typ, td.decl, 0)
  {
    LeftIs(pc, td.typ, td.decl, 0);
  }

  lemma {:induction false} ItemChanges(pc: PackConfig, b: seq<byte>, pos: nat, order: ByteOrder, t: TypeSpec,
                                       bi: Option<BitInfo>, v: Datum)
    requires Usable(pc.cfg) && LaidOut(pc.cfg, t) && Packable(pc, t, bi) && Simply(t) && BitsOk(bi)
    ensures ChangesOnly(pc.cfg.lp.order, b, PackedItem(pc, b, pos, order, t, bi, v),
                        SpanLo(pc, pos, bi), SpanHi(pc, pos, bi, ItemInfo(pc.cfg.lp, t, false).item))
    decreases t, 0
  {
    match t
    case TypeRef(td) =>
      TypedefReady(pc, td, bi);
      TypeChanges(pc, b, pos, order, td.typ, td.decl, 0, bi, v);
    case Compound(s) => StructChanges(pc, b, pos, Tagged(order, s.order), s, v);
    case _ => LeafChanges(pc, b, pos, order, t, bi, v);
  }

  lemma {:induction false} LeafChanges(pc: PackConfig, b: seq<byte>, pos: nat, order: ByteOrder, t: TypeSpec,
                                       bi: Option<BitInfo>, v: Datum)
    requires Sized(pc.cfg.lp, t) && Packable(pc, t, bi) && Simply(t) && BitsOk(bi) && (t.Basic? || t.Enum?)
    ensures ChangesOnly(pc.cfg.lp.order, b, PackedItem(pc, b, pos, order, t, bi, v),
                        SpanLo(pc, pos, bi), SpanHi(pc, pos, bi, ItemInfo(pc.cfg.lp, t, false).item))
  {
    LeafCovers(pc, t, bi);
    LeafIs(pc, b, pos, order, t, bi, v, b);
    IntChanges(pc, b, pos, LeafOf(pc, t, bi), LeafTag(t, order), v);
  }

  // ----- Members change their own bits only -----

  /** The declarations of a struct in the middle of its layout. */
  ghost predicate Members(pc: PackConfig, c: Context, p: Progress, decls: seq<StructDecl>)
    requires Usable(pc.cfg)
  {
    && c.lp == pc.cfg.lp && !c.isUnion && ProgressOk(c, p) && DeclsOk(c, decls) && PlaceDecls(c, p, decls).1 == decls
    && forall sd | sd in decls :: LaidOut(pc.cfg, sd.typ) && SdPackable(pc, sd) && SimplyDecl(sd)
  }

  ghost predicate OneDecl(pc: PackConfig, c: Context, p: Progress, sd: StructDecl)
    requires Usable(pc.cfg)
  {
    && c.lp == pc.cfg.lp && !c.isUnion && ProgressOk(c, p) && DeclOk(c, sd) && PlaceDecl(c, p, sd).1 == sd
    && LaidOut(pc.cfg, sd.typ) && SdPackable(pc, sd) && SimplyDecl(sd)
  }

  ghost predicate Declarators(pc: PackConfig, c: Context, p: Progress, t: TypeSpec, ds: seq<Declarator>)
    requires Usable(pc.cfg)
  {
    && c.lp == pc.cfg.lp && !c.isUnion && ProgressOk(c, p) && DeclaratorsOk(c, t, ds)
    && PlaceDeclarators(c, p, t, ds).decls == ds
    && LaidOut(pc.cfg, t) && MembersPackable(pc, t, ds)
    && forall d | d in ds && !d.pointer && d.name != [] :: Simply(t)
  }

  ghost predicate OneMember(pc: PackConfig, c: Context, r: Placed, t: TypeSpec, d: Declarator)
    requires Usable(pc.cfg)
  {
    && c.lp == pc.cfg.lp && !c.isUnion && ProgressOk(c, r.p)
    && MemberOk(c, t, d) && ItemInfo(c.lp, t, d.pointer).align > 0
    && PlaceDeclarator(c, r, t, d).decls == r.decls + [d]
    && LaidOut(pc.cfg, t) && (d.name != [] ==> d.offset >= 0 && MemberPackable(pc, t, d) && (d.pointer || Simply(t)))
  }

  /** A named member's span lies between the cursors before and after it. */
  lemma {:induction false} MemberSpan(pc: PackConfig, c: Context, r: Placed, t: TypeSpec, d: Declarator, pos: nat)
    requires Usable(pc.cfg) && OneMember(pc, c, r, t, d)
    ensures Edge(pos, r.p) <= Edge(pos, PlaceDeclarator(c, r, t, d).p)
    ensures d.name != [] ==>
      && Ready(pc, t, d, BitsOf(d)) && BitsOk(BitsOf(d))
      && Edge(pos, r.p) <= SpanLo(pc, pos + d.offset, BitsOf(d))
      && SpanHi(pc, pos + d.offset, BitsOf(d), Left(pc, t, d, 0)) <= Edge(pos, PlaceDeclarator(c, r, t, d).p)
  {
    var q := PlaceDeclarator(c, r, t, d);
    assert q.decls[|r.decls|] == d;
    LeftIs(pc, t, d, 0);
    if d.ext.Bitfield? {
      BitfieldReach(c, r.p, d, ItemInfo(c.lp, t, d.pointer).item);
    } else {
      FinishReach(c, r.p);
    }
  }

  lemma {:induction false} MemberChanges(pc: PackConfig, c: Context, r: Placed, b: seq<byte>, pos: nat,
                                         order: ByteOrder, t: TypeSpec, d: Declarator, m: map<string, Datum>)
    requires Usable(pc.cfg) && OneMember(pc, c, r, t, d)
    ensures ChangesOnly(pc.cfg.lp.order, b, PackedMember(pc, b, pos, order, t, d, m),
                        Edge(pos, r.p), Edge(pos, PlaceDeclarator(c, r, t, d).p))
    decreases t, 2
  {
    MemberSpan(pc, c, r, t, d, pos);
    if d.name != [] && d.name in m {
      TypeChanges(pc, b, pos + d.offset, order, t, d, 0, BitsOf(d), m[d.name]);
      ChangesWider(pc.cfg.lp.order, b, PackedMember(pc, b, pos, order, t, d, m),
                   SpanLo(pc, pos + d.offset, BitsOf(d)), SpanHi(pc, pos + d.offset, BitsOf(d), Left(pc, t, d, 0)),
                   Edge(pos, r.p), Edge(pos, PlaceDeclarator(c, r, t, d).p));
    }
  }

  lemma {:induction false} FirstMembers(pc: PackConfig, c: Context, p: Progress, t: TypeSpec, ds: seq<Declarator>)
    requires Usable(pc.cfg) && Declarators(pc, c, p, t, ds) && ds != []
    ensures Declarators(pc, c, p, t, ds[..|ds| - 1])
  {
    var first := ds[..|ds| - 1];
    assert DeclaratorsOk(c, t, first);
    assert MembersPackable(pc, t, first);
    assert PlaceDeclarators(c, p, t, first).decls == first by { SplitDeclarators(c, p, t, ds); }
    assert forall d | d in first && !d.pointer && d.name != [] :: Simply(t);
  }

  lemma {:induction false} LastMember(pc: PackConfig, c: Context, p: Progress, t: TypeSpec, ds: seq<Declarator>)
    requires Usable(pc.cfg) && Declarators(pc, c, p, t, ds) && ds != []
    ensures var q := PlaceDeclarators(c, p, t, ds[..|ds| - 1]);
      && OneMember(pc, c, q, t, ds[|ds| - 1])
      && PlaceDeclarator(c, q, t, ds[|ds| - 1]).p == PlaceDeclarators(c, p, t, ds).p
  {
    assert ds[|ds| - 1] in ds;
    SplitDeclarators(c, p, t, ds);
  }

  lemma {:induction false} MembersChange(pc: PackConfig, c: Context, p: Progress, b: seq<byte>, pos: nat,
                                         order: ByteOrder, t: TypeSpec, ds: seq<Declarator>, m: map<string, Datum>)
    requires Usable(pc.cfg) && Declarators(pc, c, p, t, ds)
    ensures Edge(pos, p) <= Edge(pos, PlaceDeclarators(c, p, t, ds).p)
    ensures ChangesOnly(pc.cfg.lp.order, b, PackedMembers(pc, b, pos, order, t, ds, m),
                        Edge(pos, p), Edge(pos, PlaceDeclarators(c, p, t, ds).p))
    decreases t, 3, |ds|
  {
    if ds != [] {
      var q, d := PlaceDeclarators(c, p, t, ds[..|ds| - 1]), ds[|ds| - 1];
      FirstMembers(pc, c, p, t, ds);
      LastMember(pc, c, p, t, ds);
      MemberSpan(pc, c, q, t, d, pos);
      MembersChange(pc, c, p, b, pos, order, t, ds[..|ds| - 1], m);
      var b1 := PackedMembers(pc, b, pos, order, t, ds[..|ds| - 1], m);
      MemberChanges(pc, c, q, b1, pos, order, t, d, m);
      ChangesTrans(pc.cfg.lp.order, b, b1, PackedMembers(pc, b, pos, order, t, ds, m), Edge(pos, p), Edge(pos, q.p),
                   Edge(pos, q.p), Edge(pos, PlaceDeclarators(c, p, t, ds).p));
    }
  }

  lemma {:induction false} DeclChanges(pc: PackConfig, c: Context, p: Progress, b: seq<byte>, pos: nat,
                                       order: ByteOrder, sd: StructDecl, m: map<string, Datum>)
    requires Usable(pc.cfg) && OneDecl(pc, c, p, sd)
    ensures Edge(pos, p) <= Edge(pos, PlaceDecl(c, p, sd).0)
    ensures ChangesOnly(pc.cfg.lp.order, b, PackedDecl(pc, b, pos, order, sd, m),
                        Edge(pos, p), Edge(pos, PlaceDecl(c, p, sd).0))
    decreases sd
  {
    if sd.declarators == [] {
      UnnamedSpan(pc, c, p, sd, pos);
      UnnamedChanges(pc, b, pos + sd.offset, order, sd.typ, m);
      ChangesWider(pc.cfg.lp.order, b, PackedDecl(pc, b, pos, order, sd, m), 8 * (pos + sd.offset),
                   8 * (pos + sd.offset + ItemInfo(c.lp, sd.typ, false).item), Edge(pos, p),
                   Edge(pos, PlaceDecl(c, p, sd).0));
    } else {
      DeclaratorsOf(pc, c, p, sd);
      MembersChange(pc, c, p, b, pos, order, sd.typ, sd.declarators, m);
    }
  }

  lemma {:induction false} DeclaratorsOf(pc: PackConfig, c: Context, p: Progress, sd: StructDecl)
    requires Usable(pc.cfg) && OneDecl(pc, c, p, sd) && sd.declarators != []
    ensures Declarators(pc, c, p, sd.typ, sd.declarators)
    ensures PlaceDecl(c, p, sd).0 == PlaceDeclarators(c, p, sd.typ, sd.declarators).p
  {
    assert PlaceDeclarators(c, p, sd.typ, sd.declarators).decls == sd.declarators;
  }

  lemma {:induction false} UnnamedSpan(pc: PackConfig, c: Context, p: Progress, sd: StructDecl, pos: nat)
    requires Usable(pc.cfg) && OneDecl(pc, c, p, sd) && sd.declarators == []
    ensures Edge(pos, p) <= 8 * (pos + sd.offset)
    ensures 8 * (pos + sd.offset + ItemInfo(c.lp, sd.typ, false).item) <= Edge(pos, PlaceDecl(c, p, sd).0)
  {
    FinishReach(c, p);
  }

  lemma {:induction false} UnnamedChanges(pc: PackConfig, b: seq<byte>, pos: nat, order: ByteOrder, t: TypeSpec,
                                          m: map<string, Datum>)
    requires Usable(pc.cfg) && LaidOut(pc.cfg, t) && UnnamedPackable(pc, t) && Simply(t)
    ensures ChangesOnly(pc.cfg.lp.order, b, PackedUnnamed(pc, b, pos, order, t, m),
                        8 * pos, 8 * (pos + ItemInfo(pc.cfg.lp, t, false).item))
    decreases t, 2
  {
    match t
    case Compound(s) =>
      assert PackedUnnamed(pc, b, pos, order, t, m) == PackedStruct(pc, b, pos, order, s, Hash(m));
      StructChanges(pc, b, pos, order, s, Hash(m));
    case TypeRef(td) =>
      UnnamedItem(pc, td);
      UnnamedChanges(pc, b, pos, order, td.typ, m);
    case _ =>
  }

  lemma {:induction false} UnnamedItem(pc: PackConfig, td: Typedef)
    requires Sized(pc.cfg.lp, td.typ) && !td.decl.pointer && !td.decl.ext.Array?
    ensures ItemInfo(pc.cfg.lp, TypeRef(td), false).item == ItemInfo(pc.cfg.lp, td.typ, false).item
  {
    assert Product(Dims(td.decl)) == 1;
  }

  lemma {:induction false} SplitStruct(pc: PackConfig, c: Context, p: Progress, decls: seq<StructDecl>)
    requires Usable(pc.cfg) && Members(pc, c, p, decls) && decls != []
    ensures var q := PlaceDecls(c, p, decls[..|decls| - 1]);
      && Members(pc, c, p, decls[..|decls| - 1]) && OneDecl(pc, c, q.0, decls[|decls| - 1])
      && PlaceDecl(c, q.0, decls[|decls| - 1]).0 == PlaceDecls(c, p, decls).0
  {
    SplitDecls(c, p, decls);
  }

  lemma {:induction false} DeclsChange(pc: PackConfig, c: Context, p: Progress, b: seq<byte>, pos: nat,
                                       order: ByteOrder, decls: seq<StructDecl>, m: map<string, Datum>)
    requires Usable(pc.cfg) && Members(pc, c, p, decls)
    ensures Edge(pos, p) <= Edge(pos, PlaceDecls(c, p, decls).0)
    ensures ChangesOnly(pc.cfg.lp.order, b, PackedDecls(pc, b, pos, order, decls, m),
                        Edge(pos, p), Edge(pos, PlaceDecls(c, p, decls).0))
    decreases decls
  {
    if decls != [] {
      var q, sd := PlaceDecls(c, p, decls[..|decls| - 1]), decls[|decls| - 1];
      SplitStruct(pc, c, p, decls);
      DeclsChange(pc, c, p, b, pos, order, decls[..|decls| - 1], m);
      var b1 := PackedDecls(pc, b, pos, order, decls[..|decls| - 1], m);
      DeclChanges(pc, c, q.0, b1, pos, order, sd, m);
      ChangesTrans(pc.cfg.lp.order, b, b1, PackedDecls(pc, b, pos, order, decls, m), Edge(pos, p), Edge(pos, q.0),
                   Edge(pos, q.0), Edge(pos, PlaceDecls(c, p, decls).0));
    }
  }

  /** The members of a laid-out struct lie inside it. */
  lemma {:induction false} StructSpan(pc: PackConfig, s: Struct, pos: nat)
    requires Usable(pc.cfg) && StructLaidOut(pc.cfg, s) && StructPackable(pc, s) && Simply(Compound(s))
    ensures var c, p := ContextOf(pc.cfg, s), Layout.Start(pc.cfg, s);
      && Members(pc, c, p, s.decls) && Edge(pos, p) == 8 * pos
      && Edge(pos, PlaceDecls(c, p, s.decls).0) <= 8 * (pos + s.size)
  {
    var c, p := ContextOf(pc.cfg, s), Layout.Start(pc.cfg, s);
    FinishReach(c, PlaceDecls(c, p, s.decls).0);
  }

  lemma {:induction false} StructChanges(pc: PackConfig, b: seq<byte>, pos: nat, order: ByteOrder, s: Struct, v: Datum)
    requires Usable(pc.cfg) && StructLaidOut(pc.cfg, s) && StructPackable(pc, s) && Simply(Compound(s))
    ensures ChangesOnly(pc.cfg.lp.order, b, PackedStruct(pc, b, pos, order, s, v), 8 * pos, 8 * (pos + s.size))
    decreases s
  {
    if v.Hash? {
      var c, p := ContextOf(pc.cfg, s), Layout.Start(pc.cfg, s);
      StructSpan(pc, s, pos);
      DeclsChange(pc, c, p, b, pos, order, s.decls, v.members);
      ChangesWider(pc.cfg.lp.order, b, PackedStruct(pc, b, pos, order, s, v), Edge(pos, p),
                   Edge(pos, PlaceDecls(c, p, s.decls).0), 8 * pos, 8 * (pos + s.size));
    }
  }

  // ----- Values that fit -----

  ghost predicate FitsInt(pc: PackConfig, l: Leaf, v: Datum)
    requires LeafOk(pc.word, l)
  {
    v.Num? && LeafRange(pc.word, l, v.value)
  }

  /** Every array element and every named member is there, and every integer is in range. */
  ghost predicate FitsType(pc: PackConfig, t: TypeSpec, d: Declarator, dim: nat, bi: Option<BitInfo>, v: Datum)
    requires DeclPackable(pc, t, d, bi)
    decreases t, 1, |Dims(d)| - dim
  {
    if dim < |Dims(d)| then
      v.Arr? && |v.items| == d.ext.dims[dim] && forall x | x in v.items :: FitsType(pc, t, d, dim + 1, None, x)
    else if d.pointer then FitsInt(pc, PointerLeaf(pc), v)
    else FitsItem(pc, t, bi, v)
  }

  ghost predicate FitsItem(pc: PackConfig, t: TypeSpec, bi: Option<BitInfo>, v: Datum)
    requires Packable(pc, t, bi)
    decreases t, 0
  {
    match t
    case TypeRef(td) => FitsType(pc, td.typ, td.decl, 0, bi, v)
    case Compound(s) => v.Hash? && v.members.Keys == Names(s.decls) && FitsStruct(pc, s, v.members)
    case Enum(sizes, signed, _) => FitsInt(pc, EnumLeaf(pc, sizes, signed, bi), v)
    case Basic(flags) => FitsInt(pc, BasicLeaf(pc, flags, bi), v)
  }

  ghost predicate FitsStruct(pc: PackConfig, s: Struct, m: map<string, Datum>)
    requires StructPackable(pc, s)
    decreases s
  {
    forall sd | sd in s.decls :: FitsDecl(pc, sd, m)
  }

  ghost predicate FitsDecl(pc: PackConfig, sd: StructDecl, m: map<string, Datum>)
    requires SdPackable(pc, sd)
    decreases sd
  {
    if sd.declarators == [] then FitsUnnamed(pc, sd.typ, m)
    else FitsMembers(pc, sd.typ, sd.declarators, m)
  }

  ghost predicate FitsMembers(pc: PackConfig, t: TypeSpec, ds: seq<Declarator>, m: map<string, Datum>)
    requires MembersPackable(pc, t, ds)
    decreases t, 3
  {
    forall d | d in ds && d.name != [] :: FitsMember(pc, t, d, m)
  }

  ghost predicate FitsMember(pc: PackConfig, t: TypeSpec, d: Declarator, m: map<string, Datum>)
    requires MemberPackable(pc, t, d)
    decreases t, 2
  {
    d.name in m && FitsType(pc, t, d, 0, BitsOf(d), m[d.name])
  }

  ghost predicate FitsUnnamed(pc: PackConfig, t: TypeSpec, m: map<string, Datum>)
    requires UnnamedPackable(pc, t)
    decreases t, 2
  {
    match t
    case Compound(s) => FitsStruct(pc, s, m)
    case TypeRef(td) => FitsUnnamed(pc, td.typ, m)
    case _ => true
  }

  // ----- What unpacking reads -----

  /** A later buffer that still has the bits from lo to hi. */
  ghost predicate Keeps(pc: PackConfig, r: seq<byte>, c: seq<byte>, lo: int, hi: int) {
    |r| <= |c| && SameBits(pc.cfg.lp.order, r, c, lo, hi)
  }

  /** Bits that were there before a change elsewhere are there after it. */
  lemma {:induction false} KeepsBefore(pc: PackConfig, r1: seq<byte>, r: seq<byte>, c: seq<byte>, lo: int, mid: int,
                                       mid': int, hi: int)
    requires ChangesOnly(pc.cfg.lp.order, r1, r, mid', hi) && Keeps(pc, r, c, lo, hi) && mid <= mid' && mid <= hi
    ensures Keeps(pc, r1, c, lo, mid)
  {
  }

  lemma {:induction false} KeepsPart(pc: PackConfig, r: seq<byte>, c: seq<byte>, lo: int, hi: int, lo': int, hi': int)
    requires Keeps(pc, r, c, lo, hi) && lo <= lo' && hi' <= hi
    ensures Keeps(pc, r, c, lo', hi')
  {
  }

  lemma {:induction false} IntReads(pc: PackConfig, b: seq<byte>, pos: nat, l: Leaf, order: ByteOrder, v: Datum,
                                    c: seq<byte>)
    requires LeafOk(pc.word, l) && FitsInt(pc, l, v)
    requires var o := pc.cfg.lp.order;
      Keeps(pc, PackedInt(pc, b, pos, l, order, v), c, LeafLo(o, pos, l), LeafHi(o, pos, l))
    ensures UnpackedInt(pc, c, pos, l, order) == v
  {
    var lo := LeafOrder(pc, order, l);
    var r := WriteLeaf(pc.word, b, pos, l, lo, PatternOf(pc.word, v.value));
    ReadWritten(pc.word, b, pos, l, lo, v.value);
    ReadSame(pc.word, pc.cfg.lp.order, r, c, pos, l, lo);
  }

  lemma {:induction false} TypeReads(pc: PackConfig, b: seq<byte>, pos: nat, order: ByteOrder, t: TypeSpec,
                                     d: Declarator, dim: nat, bi: Option<BitInfo>, v: Datum, c: seq<byte>)
    requires Usable(pc.cfg) && Ready(pc, t, d, bi) && BitsOk(bi) && dim <= |Dims(d)| && FitsType(pc, t, d, dim, bi, v)
    requires Keeps(pc, PackedType(pc, b, pos, order, t, d, dim, bi, v), c,
                   SpanLo(pc, pos, bi), SpanHi(pc, pos, bi, Left(pc, t, d, dim)))
    ensures UnpackedType(pc, c, pos, order, t, d, dim, bi) == v
    decreases t, 1, 2 * (|Dims(d)| - dim) + 1, 0
  {
    var o := if dim == 0 then Tagged(order, d.order) else order;
    LeftIs(pc, t, d, dim);
    if dim < |Dims(d)| {
      ElementIs(pos, d.ext.dims[dim], Left(pc, t, d, dim + 1));
      ItemsRead(pc, b, pos, o, t, d, dim, v.items, d.ext.dims[dim], c);
      assert v.items[..d.ext.dims[dim]] == v.items;
    } else if d.pointer {
      IntReads(pc, b, pos, PointerLeaf(pc), o, v, c);
    } else {
      ItemReads(pc, b, pos, o, t, bi, v, c);
    }
  }

  lemma {:induction false} ItemsRead(pc: PackConfig, b: seq<byte>, pos: nat, order: ByteOrder, t: TypeSpec,
                                     d: Declarator, dim: nat, items: seq<Datum>, n: nat, c: seq<byte>)
    requires Usable(pc.cfg) && Ready(pc, t, d, None) && dim < |Dims(d)| && n <= |items|
    requires forall x | x in items :: FitsType(pc, t, d, dim + 1, None, x)
    requires var end := Element(pos, n, Left(pc, t, d, dim + 1));
      Keeps(pc, PackedItems(pc, b, pos, order, t, d, dim, items, n), c, 8 * pos, 8 * end)
    ensures UnpackedItems(pc, c, pos, order, t, d, dim, n) == items[..n]
    decreases t, 1, 2 * (|Dims(d)| - dim), n
  {
    if n > 0 {
      var stride := Left(pc, t, d, dim + 1);
      StrideIs(pc, t, d, dim);
      var at := Element(pos, n - 1, stride);
      ElementGrows(pos, n - 1, stride);
      var r1 := PackedItems(pc, b, pos, order, t, d, dim, items, n - 1);
      var r := PackedItems(pc, b, pos, order, t, d, dim, items, n);
      var v := items[n - 1];
      assert v in items && FitsType(pc, t, d, dim + 1, None, v);
      ElementReads(pc, r1, pos, order, t, d, dim, v, at, stride, 8 * Element(pos, n, stride), c);
      ItemsRead(pc, b, pos, order, t, d, dim, items, n - 1, c);
      LastRead(pc, c, pos, order, t, d, dim, items, n, at);
    }
  }

  lemma {:induction false} LastRead(pc: PackConfig, c: seq<byte>, pos: nat, order: ByteOrder, t: TypeSpec,
                                    d: Declarator, dim: nat, items: seq<Datum>, n: nat, at: nat)
    requires DeclPackable(pc, t, d, None) && dim < |Dims(d)| && 0 < n <= |items|
    requires at == Element(pos, n - 1, Stride(d, dim))
    requires UnpackedItems(pc, c, pos, order, t, d, dim, n - 1) == items[..n - 1]
    requires UnpackedType(pc, c, at, order, t, d, dim + 1, None) == items[n - 1]
    ensures UnpackedItems(pc, c, pos, order, t, d, dim, n) == items[..n]
  {
  }

  /** The last element is read back, and all earlier ones are kept. */
  lemma {:induction false} ElementReads(pc: PackConfig, r1: seq<byte>, pos: nat, order: ByteOrder, t: TypeSpec,
                                        d: Declarator, dim: nat, v: Datum, at: nat, stride: nat, hi: int, c: seq<byte>)
    requires Usable(pc.cfg) && Ready(pc, t, d, None) && dim < |Dims(d)| && stride == Left(pc, t, d, dim + 1)
    requires FitsType(pc, t, d, dim + 1, None, v) && hi == 8 * (at + stride) && pos <= at
    requires Keeps(pc, PackedType(pc, r1, at, order, t, d, dim + 1, None, v), c, 8 * pos, hi)
    ensures Keeps(pc, r1, c, 8 * pos, 8 * at) && UnpackedType(pc, c, at, order, t, d, dim + 1, None) == v
    decreases t, 1, 2 * (|Dims(d)| - dim), 0
  {
    var r := PackedType(pc, r1, at, order, t, d, dim + 1, None, v);
    TypeChanges(pc, r1, at, order, t, d, dim + 1, None, v);
    KeepsBefore(pc, r1, r, c, 8 * pos, 8 * at, 8 * at, hi);
    KeepsPart(pc, r, c, 8 * pos, hi, 8 * at, 8 * (at + stride));
    TypeReads(pc, r1, at, order, t, d, dim + 1, None, v, c);
  }

  lemma {:induction false} ItemReads(pc: PackConfig, b: seq<byte>, pos: nat, order: ByteOrder, t: TypeSpec,
                                     bi: Option<BitInfo>, v: Datum, c: seq<byte>)
    requires Usable(pc.cfg) && LaidOut(pc.cfg, t) && Packable(pc, t, bi) && Simply(t) && BitsOk(bi)
    requires FitsItem(pc, t, bi, v)
    requires Keeps(pc, PackedItem(pc, b, pos, order, t, bi, v), c,
                   SpanLo(pc, pos, bi), SpanHi(pc, pos, bi, ItemInfo(pc.cfg.lp, t, false).item))
    ensures UnpackedItem(pc, c, pos, order, t, bi) == v
    decreases t, 0
  {
    match t
    case TypeRef(td) =>
      TypedefReady(pc, td, bi);
      TypeReads(pc, b, pos, order, td.typ, td.decl, 0, bi, v, c);
    case Compound(s) => CompoundReads(pc, b, pos, Tagged(order, s.order), s, v, c);
    case _ => LeafReads(pc, b, pos, order, t, bi, v, c);
  }

  lemma {:induction false} LeafReads(pc: PackConfig, b: seq<byte>, pos: nat, order: ByteOrder, t: TypeSpec,
                                     bi: Option<BitInfo>, v: Datum, c: seq<byte>)
    requires Sized(pc.cfg.lp, t) && Packable(pc, t, bi) && Simply(t) && BitsOk(bi)
    requires (t.Basic? || t.Enum?) && FitsItem(pc, t, bi, v)
    requires Keeps(pc, PackedItem(pc, b, pos, order, t, bi, v), c,
                   SpanLo(pc, pos, bi), SpanHi(pc, pos, bi, ItemInfo(pc.cfg.lp, t, false).item))
    ensures UnpackedItem(pc, c, pos, order, t, bi) == v
  {
    LeafCovers(pc, t, bi);
    var l, o := LeafOf(pc, t, bi), LeafTag(t, order);
    LeafIs(pc, b, pos, order, t, bi, v, c);
    IntReads(pc, b, pos, l, o, v, c);
  }

  /** Basic types and enums are packed and unpacked as the integers they are. */
  lemma {:induction false} LeafIs(pc: PackConfig, b: seq<byte>, pos: nat, order: ByteOrder, t: TypeSpec,
                                  bi: Option<BitInfo>, v: Datum, c: seq<byte>)
    requires Packable(pc, t, bi) && (t.Basic? || t.Enum?)
    ensures PackedItem(pc, b, pos, order, t, bi, v) == PackedInt(pc, b, pos, LeafOf(pc, t, bi), LeafTag(t, order), v)
    ensures UnpackedItem(pc, c, pos, order, t, bi) == UnpackedInt(pc, c, pos, LeafOf(pc, t, bi), LeafTag(t, order))
    ensures FitsItem(pc, t, bi, v) ==> FitsInt(pc, LeafOf(pc, t, bi), v)
  {
  }

  lemma {:induction false} CompoundReads(pc: PackConfig, b: seq<byte>, pos: nat, order: ByteOrder, s: Struct, v: Datum,
                                         c: seq<byte>)
    requires Usable(pc.cfg) && StructLaidOut(pc.cfg, s) && StructPackable(pc, s) && Simply(Compound(s))
    requires v.Hash? && v.members.Keys == Names(s.decls) && FitsStruct(pc, s, v.members)
    requires Keeps(pc, PackedStruct(pc, b, pos, order, s, v), c, 8 * pos, 8 * (pos + s.size))
    ensures Hash(UnpackedDecls(pc, c, pos, order, s.decls, map[])) == v
    decreases s, 1
  {
    StructReads(pc, b, pos, order, s, v.members, map[], c);
    OnlyNames(v.members, Names(s.decls));
  }

  // ----- Hashes -----

  /** h with the entries of m under the given names. */
  ghost function With(h: map<string, Datum>, m: map<string, Datum>, names: set<string>): map<string, Datum>
    requires names <= m.Keys
  {
    map k | k in h.Keys + names :: if k in names then m[k] else h[k]
  }

  lemma {:induction false} OnlyNames(m: map<string, Datum>, names: set<string>)
    requires m.Keys == names
    ensures With(map[], m, names) == m
  {
  }

  lemma {:induction false} WithMore(h: map<string, Datum>, m: map<string, Datum>, a: set<string>, b: set<string>)
    requires a <= m.Keys && b <= m.Keys
    ensures With(With(h, m, a), m, b) == With(h, m, a + b)
  {
  }

  lemma {:induction false} WithNothing(h: map<string, Datum>, m: map<string, Datum>)
    ensures With(h, m, {}) == h
  {
  }

  // ----- Members are read from their own bits -----

  lemma {:induction false} MemberReads(pc: PackConfig, x: Context, p: Placed, b: seq<byte>, pos: nat, order: ByteOrder,
                                       t: TypeSpec, d: Declarator, m: map<string, Datum>, h: map<string, Datum>,
                                       c: seq<byte>)
    requires Usable(pc.cfg) && OneMember(pc, x, p, t, d) && d.name != [] && d.name !in h && FitsMember(pc, t, d, m)
    requires var end := Edge(pos, PlaceDeclarator(x, p, t, d).p);
      Keeps(pc, PackedMember(pc, b, pos, order, t, d, m), c, Edge(pos, p.p), end)
    ensures UnpackedMember(pc, c, pos, order, t, d, h) == h[d.name := m[d.name]]
    decreases t, 2, 0
  {
    MemberSpan(pc, x, p, t, d, pos);
    var at, bi := pos + d.offset, BitsOf(d);
    var r := PackedType(pc, b, at, order, t, d, 0, bi, m[d.name]);
    assert r == PackedMember(pc, b, pos, order, t, d, m);
    KeepsPart(pc, r, c, Edge(pos, p.p), Edge(pos, PlaceDeclarator(x, p, t, d).p),
              SpanLo(pc, at, bi), SpanHi(pc, at, bi, Left(pc, t, d, 0)));
    TypeReads(pc, b, at, order, t, d, 0, bi, m[d.name], c);
  }

  /** What the declarations of a struct need of the hash: their names are new, and their values are there. */
  ghost predicate Supplied(names: set<string>, m: map<string, Datum>, h: map<string, Datum>) {
    names <= m.Keys && names !! h.Keys
  }

  lemma {:induction false} FitsFirst(pc: PackConfig, t: TypeSpec, ds: seq<Declarator>, m: map<string, Datum>)
    requires ds != [] && MembersPackable(pc, t, ds) && FitsMembers(pc, t, ds, m)
    ensures MembersPackable(pc, t, ds[..|ds| - 1]) && FitsMembers(pc, t, ds[..|ds| - 1], m)
    ensures ds[|ds| - 1].name != [] ==> FitsMember(pc, t, ds[|ds| - 1], m)
  {
  }

  lemma {:induction false} MembersRead(pc: PackConfig, x: Context, p: Progress, b: seq<byte>, pos: nat,
                                       order: ByteOrder, t: TypeSpec, ds: seq<Declarator>, m: map<string, Datum>,
                                       h: map<string, Datum>, c: seq<byte>)
    requires Usable(pc.cfg) && Declarators(pc, x, p, t, ds) && UniqueMembers(ds) && Supplied(MemberNames(ds), m, h)
    requires FitsMembers(pc, t, ds, m)
    requires var end := Edge(pos, PlaceDeclarators(x, p, t, ds).p);
      Keeps(pc, PackedMembers(pc, b, pos, order, t, ds, m), c, Edge(pos, p), end)
    ensures UnpackedMembers(pc, c, pos, order, t, ds, h) == With(h, m, MemberNames(ds))
    decreases t, 3, |ds|
  {
    if ds == [] {
      WithNothing(h, m);
    } else {
      var first := ds[..|ds| - 1];
      MembersSplit(pc, x, p, b, pos, order, t, ds, m, c);
      MembersRead(pc, x, p, b, pos, order, t, first, m, h, c);
      MemberAdds(pc, x, PlaceDeclarators(x, p, t, first), PackedMembers(pc, b, pos, order, t, first, m), pos, order, t,
                 ds, m, h, c);
    }
  }

  /** What holds of all members holds of the last one and of those before it. */
  lemma {:induction false} MembersSplit(pc: PackConfig, x: Context, p: Progress, b: seq<byte>, pos: nat,
                                        order: ByteOrder, t: TypeSpec, ds: seq<Declarator>, m: map<string, Datum>,
                                        c: seq<byte>)
    requires Usable(pc.cfg) && ds != [] && Declarators(pc, x, p, t, ds) && FitsMembers(pc, t, ds, m)
    requires var end := Edge(pos, PlaceDeclarators(x, p, t, ds).p);
      Keeps(pc, PackedMembers(pc, b, pos, order, t, ds, m), c, Edge(pos, p), end)
    ensures Declarators(pc, x, p, t, ds[..|ds| - 1]) && FitsMembers(pc, t, ds[..|ds| - 1], m)
    ensures var q, d := PlaceDeclarators(x, p, t, ds[..|ds| - 1]), ds[|ds| - 1];
      var r1 := PackedMembers(pc, b, pos, order, t, ds[..|ds| - 1], m);
      && OneMember(pc, x, q, t, d) && (d.name != [] ==> FitsMember(pc, t, d, m))
      && Keeps(pc, r1, c, Edge(pos, p), Edge(pos, q.p))
      && Keeps(pc, PackedMember(pc, r1, pos, order, t, d, m), c, Edge(pos, q.p),
               Edge(pos, PlaceDeclarator(x, q, t, d).p))
  {
    var first := ds[..|ds| - 1];
    FirstMembers(pc, x, p, t, ds);
    LastMember(pc, x, p, t, ds);
    FitsFirst(pc, t, ds, m);
    MembersKept(pc, x, p, PlaceDeclarators(x, p, t, first), b, PackedMembers(pc, b, pos, order, t, first, m),
                pos, order, t, ds, m, c);
  }

  /** The last member adds its name to what the others have put into the hash. */
  lemma {:induction false} MemberAdds(pc: PackConfig, x: Context, q: Placed, r1: seq<byte>, pos: nat, order: ByteOrder,
                                      t: TypeSpec, ds: seq<Declarator>, m: map<string, Datum>, h: map<string, Datum>,
                                      c: seq<byte>)
    requires Usable(pc.cfg) && ds != [] && OneMember(pc, x, q, t, ds[|ds| - 1])
    requires UniqueMembers(ds) && Supplied(MemberNames(ds), m, h)
    requires ds[|ds| - 1].name != [] ==> FitsMember(pc, t, ds[|ds| - 1], m)
    requires Keeps(pc, PackedMember(pc, r1, pos, order, t, ds[|ds| - 1], m), c, Edge(pos, q.p),
                   Edge(pos, PlaceDeclarator(x, q, t, ds[|ds| - 1]).p))
    ensures UnpackedMember(pc, c, pos, order, t, ds[|ds| - 1], With(h, m, MemberNames(ds[..|ds| - 1])))
        == With(h, m, MemberNames(ds))
    decreases t, 2, 1
  {
    var names, d := MemberNames(ds[..|ds| - 1]), ds[|ds| - 1];
    if d.name != [] {
      WithOne(h, m, names, d.name);
      MemberReads(pc, x, q, r1, pos, order, t, d, m, With(h, m, names), c);
    }
  }

  lemma {:induction false} WithOne(h: map<string, Datum>, m: map<string, Datum>, names: set<string>, name: string)
    requires names <= m.Keys && name in m
    ensures With(h, m, names)[name := m[name]] == With(h, m, names + {name})
  {
  }

  /** Packing the last member keeps the ones before it. */
  lemma {:induction false} MembersKept(pc: PackConfig, x: Context, p: Progress, q: Placed, b: seq<byte>, r1: seq<byte>,
                                       pos: nat, order: ByteOrder, t: TypeSpec, ds: seq<Declarator>,
                                       m: map<string, Datum>, c: seq<byte>)
    requires Usable(pc.cfg) && ds != [] && Declarators(pc, x, p, t, ds) && MembersPackable(pc, t, ds[..|ds| - 1])
    requires DeclaratorsOk(x, t, ds[..|ds| - 1]) && q == PlaceDeclarators(x, p, t, ds[..|ds| - 1])
    requires OneMember(pc, x, q, t, ds[|ds| - 1])
    requires PlaceDeclarator(x, q, t, ds[|ds| - 1]).p == PlaceDeclarators(x, p, t, ds).p
    requires r1 == PackedMembers(pc, b, pos, order, t, ds[..|ds| - 1], m)
    requires var end := Edge(pos, PlaceDeclarators(x, p, t, ds).p);
      Keeps(pc, PackedMembers(pc, b, pos, order, t, ds, m), c, Edge(pos, p), end)
    ensures Keeps(pc, r1, c, Edge(pos, p), Edge(pos, q.p))
    ensures Keeps(pc, PackedMember(pc, r1, pos, order, t, ds[|ds| - 1], m), c, Edge(pos, q.p),
                  Edge(pos, PlaceDeclarator(x, q, t, ds[|ds| - 1]).p))
  {
    var d := ds[|ds| - 1];
    var r, end := PackedMembers(pc, b, pos, order, t, ds, m), Edge(pos, PlaceDeclarators(x, p, t, ds).p);
    FirstMembers(pc, x, p, t, ds);
    MembersChange(pc, x, p, b, pos, order, t, ds[..|ds| - 1], m);
    MemberSpan(pc, x, q, t, d, pos);
    MemberChanges(pc, x, q, r1, pos, order, t, d, m);
    KeepsBefore(pc, r1, r, c, Edge(pos, p), Edge(pos, q.p), Edge(pos, q.p), end);
    KeepsPart(pc, r, c, Edge(pos, p), end, Edge(pos, q.p), end);
  }

  lemma {:induction false} DeclReads(pc: PackConfig, x: Context, p: Progress, b: seq<byte>, pos: nat, order: ByteOrder,
                                     sd: StructDecl, m: map<string, Datum>, h: map<string, Datum>, c: seq<byte>)
    requires Usable(pc.cfg) && OneDecl(pc, x, p, sd) && UniqueMembers(sd.declarators)
    requires Supplied(DeclNames(sd), m, h) && FitsDecl(pc, sd, m)
    requires Keeps(pc, PackedDecl(pc, b, pos, order, sd, m), c, Edge(pos, p), Edge(pos, PlaceDecl(x, p, sd).0))
    ensures UnpackedDecl(pc, c, pos, order, sd, h) == With(h, m, DeclNames(sd))
    decreases sd
  {
    if sd.declarators == [] {
      UnnamedSpan(pc, x, p, sd, pos);
      var at := pos + sd.offset;
      KeepsPart(pc, PackedDecl(pc, b, pos, order, sd, m), c, Edge(pos, p), Edge(pos, PlaceDecl(x, p, sd).0),
                8 * at, 8 * (at + ItemInfo(x.lp, sd.typ, false).item));
      UnnamedReads(pc, b, at, order, sd.typ, m, h, c);
    } else {
      DeclaratorsOf(pc, x, p, sd);
      MembersRead(pc, x, p, b, pos, order, sd.typ, sd.declarators, m, h, c);
    }
  }

  lemma {:induction false} UnnamedReads(pc: PackConfig, b: seq<byte>, pos: nat, order: ByteOrder, t: TypeSpec,
                                        m: map<string, Datum>, h: map<string, Datum>, c: seq<byte>)
    requires Usable(pc.cfg) && LaidOut(pc.cfg, t) && UnnamedPackable(pc, t) && Simply(t)
    requires Supplied(TypeNames(t), m, h) && FitsUnnamed(pc, t, m)
    requires var end := pos + ItemInfo(pc.cfg.lp, t, false).item;
      Keeps(pc, PackedUnnamed(pc, b, pos, order, t, m), c, 8 * pos, 8 * end)
    ensures UnpackedUnnamed(pc, c, pos, order, t, h) == With(h, m, TypeNames(t))
    decreases t, 2
  {
    match t
    case Compound(s) =>
      assert PackedUnnamed(pc, b, pos, order, t, m) == PackedDecls(pc, b, pos, order, s.decls, m);
      StructReads(pc, b, pos, order, s, m, h, c);
    case TypeRef(td) =>
      UnnamedItem(pc, td);
      UnnamedReads(pc, b, pos, order, td.typ, m, h, c);
    case _ =>
  }

  lemma {:induction false} DeclsRead(pc: PackConfig, x: Context, p: Progress, b: seq<byte>, pos: nat, order: ByteOrder,
                                     decls: seq<StructDecl>, m: map<string, Datum>, h: map<string, Datum>, c: seq<byte>)
    requires Usable(pc.cfg) && Members(pc, x, p, decls) && UniqueDecls(decls) && Supplied(Names(decls), m, h)
    requires forall sd | sd in decls :: FitsDecl(pc, sd, m)
    requires Keeps(pc, PackedDecls(pc, b, pos, order, decls, m), c, Edge(pos, p), Edge(pos, PlaceDecls(x, p, decls).0))
    ensures UnpackedDecls(pc, c, pos, order, decls, h) == With(h, m, Names(decls))
    decreases decls
  {
    if decls == [] {
      WithNothing(h, m);
    } else {
      var first, sd := decls[..|decls| - 1], decls[|decls| - 1];
      var q := PlaceDecls(x, p, first);
      SplitStruct(pc, x, p, decls);
      var r1 := PackedDecls(pc, b, pos, order, first, m);
      DeclsKept(pc, x, p, q.0, b, r1, pos, order, decls, m, c);
      DeclsRead(pc, x, p, b, pos, order, first, m, h, c);
      assert sd in decls && FitsDecl(pc, sd, m);
      DeclReads(pc, x, q.0, r1, pos, order, sd, m, With(h, m, Names(first)), c);
      WithMore(h, m, Names(first), DeclNames(sd));
    }
  }

  /** Packing the last declaration keeps the ones before it. */
  lemma {:induction false} DeclsKept(pc: PackConfig, x: Context, p: Progress, q: Progress, b: seq<byte>, r1: seq<byte>,
                                     pos: nat, order: ByteOrder, decls: seq<StructDecl>, m: map<string, Datum>,
                                     c: seq<byte>)
    requires Usable(pc.cfg) && decls != [] && Members(pc, x, p, decls) && Members(pc, x, p, decls[..|decls| - 1])
    requires q == PlaceDecls(x, p, decls[..|decls| - 1]).0 && OneDecl(pc, x, q, decls[|decls| - 1])
    requires PlaceDecl(x, q, decls[|decls| - 1]).0 == PlaceDecls(x, p, decls).0
    requires r1 == PackedDecls(pc, b, pos, order, decls[..|decls| - 1], m)
    requires Keeps(pc, PackedDecls(pc, b, pos, order, decls, m), c, Edge(pos, p), Edge(pos, PlaceDecls(x, p, decls).0))
    ensures Keeps(pc, r1, c, Edge(pos, p), Edge(pos, q))
    ensures var end := Edge(pos, PlaceDecls(x, p, decls).0);
      Keeps(pc, PackedDecl(pc, r1, pos, order, decls[|decls| - 1], m), c, Edge(pos, q), end)
  {
    DeclsChange(pc, x, p, b, pos, order, decls[..|decls| - 1], m);
    DeclChanges(pc, x, q, r1, pos, order, decls[|decls| - 1], m);
    KeepsBefore(pc, r1, PackedDecls(pc, b, pos, order, decls, m), c, Edge(pos, p), Edge(pos, q), Edge(pos, q),
                Edge(pos, PlaceDecls(x, p, decls).0));
    KeepsPart(pc, PackedDecls(pc, b, pos, order, decls, m), c, Edge(pos, p), Edge(pos, PlaceDecls(x, p, decls).0),
              Edge(pos, q), Edge(pos, PlaceDecls(x, p, decls).0));
  }

  lemma {:induction false} StructReads(pc: PackConfig, b: seq<byte>, pos: nat, order: ByteOrder, s: Struct,
                                       m: map<string, Datum>, h: map<string, Datum>, c: seq<byte>)
    requires Usable(pc.cfg) && StructLaidOut(pc.cfg, s) && StructPackable(pc, s) && Simply(Compound(s))
    requires Supplied(Names(s.decls), m, h) && FitsStruct(pc, s, m)
    requires Keeps(pc, PackedDecls(pc, b, pos, order, s.decls, m), c, 8 * pos, 8 * (pos + s.size))
    ensures UnpackedDecls(pc, c, pos, order, s.decls, h) == With(h, m, Names(s.decls))
    decreases s, 0
  {
    var x, p := ContextOf(pc.cfg, s), Layout.Start(pc.cfg, s);
    StructSpan(pc, s, pos);
    KeepsPart(pc, PackedDecls(pc, b, pos, order, s.decls, m), c, 8 * pos, 8 * (pos + s.size),
              Edge(pos, p), Edge(pos, PlaceDecls(x, p, s.decls).0));
    DeclsRead(pc, x, p, b, pos, order, s.decls, m, h, c);
  }

  // ----- The round trip -----

  /**
   Unpacking what was packed gives the same value, whatever the buffer held before, and whatever
   happens later to bits that are not the value's: for every type made of integers, pointers,
   bitfields, arrays, typedefs and nested structs, with ByteOrder tags anywhere.
   */
  lemma {:induction false} RoundTrip(pc: PackConfig, b: seq<byte>, pos: nat, order: ByteOrder, t: TypeSpec,
                                     d: Declarator, v: Datum)
    requires Usable(pc.cfg) && Ready(pc, t, d, None) && FitsType(pc, t, d, 0, None, v)
    ensures var r := PackedType(pc, b, pos, order, t, d, 0, None, v);
      && UnpackedType(pc, r, pos, order, t, d, 0, None) == v
      && ChangesOnly(pc.cfg.lp.order, b, r, 8 * pos, 8 * (pos + TypeInfo(pc.cfg.lp, t, d).size))
  {
    LeftIs(pc, t, d, 0);
    TypeChanges(pc, b, pos, order, t, d, 0, None, v);
    TypeReads(pc, b, pos, order, t, d, 0, None, v, PackedType(pc, b, pos, order, t, d, 0, None, v));
  }
}
