/**
 Whether a bitfield's container ends with its struct. The generic engine gives a field the smallest container that
 holds it, and a struct may end before that container does.
 */
module ContainerEnds {
  import opened Bits
  import opened IntegerMemory
  import opened CTypes
  import opened Bitfields
  import opened BitfieldSafety
  import opened BitfieldPlaces
  import opened Layout
  import opened LayoutAlignment
  import opened PackBuffer
  import opened Packing

  /** An engine in a struct that is aligned to what it has seen, under a limit that is a power of two. */
  ghost predicate Seasoned(e: Unit) {
    Sane(Generic(e)) && Power(e.maxAlign) && Power(e.align) && (e.typeSize > 0 ==> e.typeAlign <= e.align)
  }

  ghost predicate Field(d: Declarator, typeSize: nat) {
    IntSize(typeSize) && d.ext.Bitfield? && 0 < d.ext.bits <= 8 * typeSize
  }

  /** A struct that ends with the field, padded, has all of its container. */
  ghost predicate ContainerInside(e: Unit, d: Declarator, typeSize: nat)
    requires Sane(Generic(e)) && Field(d, typeSize)
  {
    GenericPlaces(e, d, typeSize);
    var (u, r) := GenericPush(e, d, typeSize, typeSize);
    u.align > 0 && r.offset + r.size <= RoundUp(Offset(FinalizeEngine(Generic(u))), u.align)
  }

  lemma IntSizeIsPower(n: nat)
    requires IntSize(n)
    ensures Power(n)
  {
    assert Pow2(0) == 1 && Pow2(1) == 2 && Pow2(2) == 4 && Pow2(3) == 8;
  }

  /** A limit above a quarter of a type's size is half of it, or no less. */
  lemma LimitIs(limit: nat, size: nat)
    requires Power(limit) && IntSize(size) && size < 4 * limit
    ensures limit >= size || 2 * limit == size
  {
    if limit < size {
      IntSizeIsPower(size);
      PowerDivides(limit, size);
      Quotient(size, limit);
    }
  }

  lemma Quotient(x: int, d: int)
    requires 0 < d < x < 4 * d && x % d == 0 && x in {1, 2, 4, 8}
    ensures x == 2 * d
  {
  }

  /** The first multiple of the alignment after n bytes reaches the end of the smallest container of n bytes. */
  lemma Reaches(n: int, c: int, a: int, size: int, x: int)
    requires size in {1, 2, 4, 8} && 0 < n <= x && (a == size || 2 * a == size) && a > 0 && x % a == 0
    requires c <= size && (n <= a ==> c <= a)
    ensures c <= x
  {
    if x < size {
      Bits.DivMod(x, a);
      assert x == a;
    }
  }

  lemma {:induction false} InsideAlways(e: Unit, d: Declarator, typeSize: nat)
    requires Seasoned(e) && Field(d, typeSize) && typeSize < 4 * e.maxAlign
    ensures ContainerInside(e, d, typeSize)
  {
    GenericPlaces(e, d, typeSize);
    GenericRest(e, d, typeSize);
    var (u, r) := GenericPush(e, d, typeSize, typeSize);
    var a := Limited(e, typeSize);
    var n, end := (u.bitOffset + 7) / 8, u.offset + (u.bitOffset + 7) / 8;
    LimitIs(e.maxAlign, typeSize);
    AlignMultiple(e, typeSize);
    RoundUpDivides(end, u.align);
    DividesTrans(a, u.align, RoundUp(end, u.align));
    Difference(RoundUp(end, u.align), u.offset, a);
    Reaches(n, r.size, a, typeSize, RoundUp(end, u.align) - u.offset);
  }

  lemma Difference(x: int, y: int, a: nat)
    requires Divides(a, x) && y % a == 0
    ensures (x - y) % a == 0
  {
    DividesMul(a, y, -1);
    DividesSum(a, x, -1 * y);
  }

  /** The struct's alignment is a multiple of the field's. */
  lemma {:induction false} AlignMultiple(e: Unit, typeSize: nat)
    requires Seasoned(e) && IntSize(typeSize)
    ensures Divides(Limited(e, typeSize), WidenedAlign(e, typeSize))
  {
    IntSizeIsPower(typeSize);
    PowerDivides(Limited(e, typeSize), WidenedAlign(e, typeSize));
  }

  /** A field of one byte more than half of its type, at the start of a struct. */
  function Half(typeSize: nat): Declarator {
    Declarator("a", false, Bitfield(4 * typeSize + 1, 0, 0), -1, -1, -1, None)
  }

  /** Nothing has been placed yet. */
  ghost predicate Fresh(e: Unit) {
    e.maxAlign > 0 && e.align == 1 && e.offset == e.bitOffset == e.typeSize == e.typeAlign == 0
  }

  lemma {:induction false} OutsideOnce(e: Unit, d: Declarator, typeSize: nat)
    requires Fresh(e) && Power(e.maxAlign) && IntSize(typeSize) && typeSize >= 4 * e.maxAlign && d == Half(typeSize)
    ensures Seasoned(e) && Field(d, typeSize) && !ContainerInside(e, d, typeSize)
  {
    assert Pow2(0) == 1;
    GenericPlaces(e, d, typeSize);
    var t := e.(align := e.maxAlign, typeSize := typeSize, typeAlign := e.maxAlign);
    FreshUnit(e, t, d);
    HalfPlaced(t);
    RoundedBelow(e.maxAlign, typeSize);
  }

  lemma RoundedBelow(limit: nat, typeSize: nat)
    requires 0 < limit && 4 * limit <= typeSize && IntSize(typeSize)
    ensures RoundUp(typeSize / 2 + 1, limit) < typeSize
  {
    assert RoundUp(typeSize / 2 + 1, limit) < typeSize / 2 + 1 + limit;
  }

  lemma {:induction false} HalfPlaced(t: Unit)
    requires (t.typeSize == 4 || t.typeSize == 8) && t.offset == t.bitOffset == 0
    ensures var (u, r) := GenericPlace(t, Half(t.typeSize));
      && r.offset == 0 && r.size == t.typeSize && u.align == t.align
      && Offset(FinalizeEngine(Generic(u))) == t.typeSize / 2 + 1
  {
    HalfBytes(t.typeSize);
  }

  lemma HalfBytes(typeSize: nat)
    requires typeSize == 4 || typeSize == 8
    ensures UsedBytes(4 * typeSize + 1) == typeSize && (4 * typeSize + 1 + 7) / 8 == typeSize / 2 + 1
  {
  }

  lemma {:induction false} FreshUnit(e: Unit, t: Unit, d: Declarator)
    requires UnitFits(e, t.typeSize, t.typeSize) && Field(d, t.typeSize) && e.maxAlign <= t.typeSize
    requires Fresh(e)
    requires t == e.(align := e.maxAlign, typeSize := t.typeSize, typeAlign := e.maxAlign)
    ensures GenericPush(e, d, t.typeSize, t.typeSize) == GenericPlace(t, d)
  {
    assert 0 % e.maxAlign == 0;
    assert GenericRetype(e, t.typeSize, t.typeSize) == t;
    assert GenericMove(t, d.ext.bits) == t;
  }

  /** With the generic engine every container ends with its struct, whatever came before the field, if and only if
      the type is less than four times as large as the alignment limit. */
  lemma {:induction false} ContainersInsideExact(order: ByteOrder, limit: nat, typeSize: nat)
    requires Power(limit) && IntSize(typeSize)
    ensures
      (forall e: Unit, d: Declarator
         | Seasoned(e) && e.order == order && e.maxAlign == limit && Field(d, typeSize) ::
         ContainerInside(e, d, typeSize))
      <==> typeSize < 4 * limit
  {
    if typeSize < 4 * limit {
      forall e: Unit, d: Declarator
        | Seasoned(e) && e.order == order && e.maxAlign == limit && Field(d, typeSize)
        ensures ContainerInside(e, d, typeSize)
      {
        InsideAlways(e, d, typeSize);
      }
    } else {
      OutsideOnce(Unit(order, limit, 1, 0, 0, 0, 0), Half(typeSize), typeSize);
    }
  }

  // ----- A struct that is shorter than what it holds -----

  const Int := Basic({INT})

  /** `struct { int a:17; }` */
  function Short(): Struct {
    Struct(false, 1, [StructDecl(Int, [Half(4)], 0, 0)], 0, 0, None)
  }

  ghost predicate IntConfig(cfg: Config) {
    Usable(cfg) && cfg.cls == GenericClass && IntSizeOf(cfg.lp) == 4
  }

  /** The field after layout. */
  function Placed4(order: ByteOrder): Declarator {
    Declarator("a", false, Bitfield(17, 4, FieldPos(order, 4, 0, 17)), 0, 4, -1, None)
  }

  lemma {:induction false} ShortContext(cfg: Config)
    requires IntConfig(cfg)
    ensures DeclsOk(ContextOf(cfg, Short()), Short().decls)
    ensures Resumed(cfg, Short()) == Progress(0, 1, None) && ContextOf(cfg, Short()).limit == 1
  {
    assert ItemInfo(cfg.lp, Int, false) == Info(4, 4, 4, true);
  }

  lemma {:induction false} ShortField(c: Context, p: Progress)
    requires ProgressOk(c, p) && p == Progress(0, 1, None) && c.limit == 1 && !c.isUnion && c.cls == GenericClass
    requires FieldOk(Started(c, 0, 1), Half(4), 4)
    ensures var q := PlaceBitfield(c, p, Half(4), 4);
      q.1 == Placed4(c.lp.order) && q.0.open.Some? && Finished(q.0) == Progress(3, 1, None)
  {
    var e := RunEngine(c, p);
    var t := e.unit.(align := 1, typeSize := 4, typeAlign := 1);
    FreshUnit(e.unit, t, Half(4));
    HalfPlaced(t);
  }

  lemma {:induction false} OneField(c: Context, p: Progress, sd: StructDecl, d: Declarator)
    requires ProgressOk(c, p) && DeclOk(c, sd) && DeclsOk(c, [sd]) && sd.declarators == [d] && d.ext.Bitfield?
    requires FieldOk(Started(c, 0, 1), d, TypeInfo(c.lp, sd.typ, d).item)
    ensures var q, r := PlaceBitfield(c, p, d, TypeInfo(c.lp, sd.typ, d).item), PlaceDecls(c, p, [sd]);
      r.0 == q.0 && |r.1| == 1 && r.1[0].typ == sd.typ && r.1[0].declarators == [q.1]
  {
    assert [d][..0] == [] && [sd][..0] == [];
    var q := PlaceDeclarators(c, p, sd.typ, []);
    assert [d] == [] + [d];
    assert d in sd.declarators;
    assert PlaceDeclarators(c, p, sd.typ, [d]) == PlaceDeclarator(c, q, sd.typ, d);
    assert PlaceDecls(c, p, []) == (p, []);
  }

  /** Aligned to single bytes it has three of them, and its field's container four. */
  lemma {:induction false} ShortLayout(cfg: Config)
    requires IntConfig(cfg)
    ensures DeclsOk(ContextOf(cfg, Short()), Short().decls)
    ensures var s := PlaceStruct(cfg, Short());
      s.size == 3 && |s.decls| == 1 && s.decls[0].typ == Int && s.decls[0].declarators == [Placed4(cfg.lp.order)]
      && s.order == None
  {
    var c, p, sd := ContextOf(cfg, Short()), Resumed(cfg, Short()), Short().decls[0];
    ShortContext(cfg);
    assert TypeInfo(c.lp, Int, Half(4)).item == 4;
    assert FieldOk(Started(c, 0, 1), Half(4), 4);
    ShortField(c, p);
    assert sd in Short().decls && Short().decls == [sd];
    OneField(c, p, sd, Half(4));
  }

  lemma {:induction false} FieldPackable(pc: PackConfig, f: Declarator)
    requires pc.word >= 32 && f == Placed4(pc.cfg.lp.order)
    ensures MemberPackable(pc, Int, f) && MembersPackable(pc, Int, [f])
    ensures BitsOf(f) == Some(BitInfo(4, 17, f.ext.pos)) && BasicLeaf(pc, {INT}, BitsOf(f)).size == 4
  {
    assert LeafOk(pc.word, BasicLeaf(pc, {INT}, BitsOf(f)));
  }

  /** Out of three bytes the field is not read, */
  lemma {:induction false} NotRead(pc: PackConfig, b: seq<byte>, order: ByteOrder, f: Declarator)
    requires pc.word >= 32 && |b| == 3 && f == Placed4(pc.cfg.lp.order) && MemberPackable(pc, Int, f)
    ensures UnpackedMember(pc, b, 0, order, Int, f, map[]) == map["a" := Undef]
  {
    FieldPackable(pc, f);
    assert UnpackedType(pc, b, 0, order, Int, f, 0, BitsOf(f)) == Undef;
  }

  /** and into three bytes it is written as four. */
  lemma {:induction false} WrittenLonger(pc: PackConfig, b: seq<byte>, order: ByteOrder, f: Declarator, n: int)
    requires pc.word >= 32 && |b| == 3 && f == Placed4(pc.cfg.lp.order) && MemberPackable(pc, Int, f)
    ensures |PackedMember(pc, b, 0, order, Int, f, map["a" := Num(n)])| == 4
  {
    FieldPackable(pc, f);
    var l := BasicLeaf(pc, {INT}, BitsOf(f));
    assert PackedType(pc, b, 0, order, Int, f, 0, BitsOf(f), Num(n)) == PackedInt(pc, b, 0, l, order, Num(n));
  }

  /** A struct of one member. */
  lemma {:induction false} OnlyMember(pc: PackConfig, b: seq<byte>, order: ByteOrder, sd: StructDecl, f: Declarator,
                                      m: map<string, Datum>)
    requires sd.declarators == [f] && f.name != [] && f.offset >= 0 && MemberPackable(pc, sd.typ, f)
    ensures SdPackable(pc, sd)
    ensures UnpackedDecls(pc, b, 0, order, [sd], map[]) == UnpackedMember(pc, b, 0, order, sd.typ, f, map[])
    ensures PackedDecls(pc, b, 0, order, [sd], m) == PackedMember(pc, b, 0, order, sd.typ, f, m)
  {
    assert [sd][..0] == [] && [f][..0] == [];
    assert MembersPackable(pc, sd.typ, [f]) && SdPackable(pc, sd);
    var t := sd.typ;
    assert UnpackedMembers(pc, b, 0, order, t, [f], map[])
        == UnpackedMember(pc, b, 0, order, t, f, UnpackedMembers(pc, b, 0, order, t, [], map[]));
    assert UnpackedDecls(pc, b, 0, order, [sd], map[])
        == UnpackedDecl(pc, b, 0, order, sd, UnpackedDecls(pc, b, 0, order, [], map[]));
    assert PackedMembers(pc, b, 0, order, t, [f], m)
        == PackedMember(pc, PackedMembers(pc, b, 0, order, t, [], m), 0, order, t, f, m);
    assert PackedDecls(pc, b, 0, order, [sd], m)
        == PackedDecl(pc, PackedDecls(pc, b, 0, order, [], m), 0, order, sd, m);
  }

  /** So this struct's own bytes do not give its member a value, and packing into them makes them longer. */
  lemma {:induction false} TooShort(pc: PackConfig, b: seq<byte>, order: ByteOrder, n: int)
    requires IntConfig(pc.cfg) && pc.word >= 32 && |b| == 3
    ensures DeclsOk(ContextOf(pc.cfg, Short()), Short().decls)
    ensures var s := PlaceStruct(pc.cfg, Short());
      && s.size == |b| && StructPackable(pc, s)
      && UnpackedItem(pc, b, 0, order, Compound(s), None) == Hash(map["a" := Undef])
      && |PackedItem(pc, b, 0, order, Compound(s), None, Hash(map["a" := Num(n)]))| == 4
  {
    ShortLayout(pc.cfg);
    var s := PlaceStruct(pc.cfg, Short());
    var sd, f := s.decls[0], Placed4(pc.cfg.lp.order);
    assert s.decls == [sd];
    FieldPackable(pc, f);
    assert StructPackable(pc, s) by { OnlyMember(pc, b, order, sd, f, map["a" := Num(n)]); }
    var v := map["a" := Num(n)];
    assert UnpackedItem(pc, b, 0, order, Compound(s), None)
        == Hash(UnpackedDecls(pc, b, 0, order, [sd], map[]));
    assert PackedItem(pc, b, 0, order, Compound(s), None, Hash(v)) == PackedDecls(pc, b, 0, order, [sd], v);
    OnlyMember(pc, b, order, sd, f, v);
    NotRead(pc, b, order, f);
    WrittenLonger(pc, b, order, f, n);
  }
}
