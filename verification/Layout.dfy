/**
 Sizes and alignments of types, and the layout of structs and unions. The layout of one compound
 is a function; the routine that places one declarator after the other in a loop is proved to
 compute it.
 */
module Layout {
  import opened IntegerMemory
  import opened CTypes
  import opened Bitfields
  import opened BitfieldSafety

  /** Sizes of the basic types; as a setting, 0 stands for the native size. */
  datatype Sizes = Sizes(
    charSize: nat, shortSize: nat, intSize: nat, longSize: nat, longLongSize: nat,
    floatSize: nat, doubleSize: nat, longDoubleSize: nat, ptrSize: nat)

  datatype LayoutParam = LayoutParam(
    alignment: nat, compoundAlignment: nat, sizes: Sizes, enumSize: int, order: ByteOrder,
    native: Sizes, nativeAlignment: nat, nativeCompoundAlignment: nat)

  /** A layout parameter set with the engine that goes with it. */
  datatype Config = Config(lp: LayoutParam, cls: EngineClass, blockSize: nat)

  function Chosen(setting: nat, native: nat): nat {
    if setting > 0 then setting else native
  }

  ghost predicate Native(s: Sizes) {
    && s.charSize > 0 && s.shortSize > 0 && s.intSize > 0 && s.longSize > 0 && s.longLongSize > 0
    && s.floatSize > 0 && s.doubleSize > 0 && s.longDoubleSize > 0 && s.ptrSize > 0
  }

  ghost predicate Usable(c: Config) {
    Native(c.lp.native) && c.lp.nativeAlignment > 0 && c.lp.nativeCompoundAlignment > 0 && c.blockSize > 0
  }

  function PointerSize(lp: LayoutParam): nat {
    Chosen(lp.sizes.ptrSize, lp.native.ptrSize)
  }

  function IntSizeOf(lp: LayoutParam): nat {
    Chosen(lp.sizes.intSize, lp.native.intSize)
  }

  function BasicSize(lp: LayoutParam, flags: set<Flag>): nat {
    if VOID in flags then 1
    else if LONG in flags && DOUBLE in flags then Chosen(lp.sizes.longDoubleSize, lp.native.longDoubleSize)
    else if LONGLONG in flags then Chosen(lp.sizes.longLongSize, lp.native.longLongSize)
    else if FLOAT in flags then Chosen(lp.sizes.floatSize, lp.native.floatSize)
    else if DOUBLE in flags then Chosen(lp.sizes.doubleSize, lp.native.doubleSize)
    else if CHAR in flags then Chosen(lp.sizes.charSize, lp.native.charSize)
    else if SHORT in flags then Chosen(lp.sizes.shortSize, lp.native.shortSize)
    else if LONG in flags then Chosen(lp.sizes.longSize, lp.native.longSize)
    else IntSizeOf(lp)
  }

  /** An enum's size is configured, or the one its values need. */
  function EnumSize(lp: LayoutParam, sizes: seq<nat>): nat
    requires lp.enumSize > 0 || -lp.enumSize < |sizes|
  {
    if lp.enumSize > 0 then lp.enumSize else sizes[-lp.enumSize]
  }

  // ----- Type information -----

  datatype Info = Info(size: nat, align: nat, item: nat, known: bool)

  /** Enums have a size for the setting in force. */
  ghost predicate Sized(lp: LayoutParam, t: TypeSpec) {
    match t
    case Enum(sizes, _, _) => (lp.enumSize > 0 || -lp.enumSize < |sizes|) && EnumSize(lp, sizes) > 0
    case TypeRef(td) => Sized(lp, td.typ)
    case _ => true
  }

  /** One item of a type: what an element of an array of it takes. */
  function ItemInfo(lp: LayoutParam, t: TypeSpec, pointer: bool): Info
    requires Sized(lp, t)
    decreases t, 0
  {
    if pointer then Info(PointerSize(lp), PointerSize(lp), PointerSize(lp), true)
    else
      match t
      case TypeRef(td) => var i := TypeInfo(lp, td.typ, td.decl); Info(i.size, i.align, i.size, i.known)
      case Enum(sizes, _, _) => var n := EnumSize(lp, sizes); Info(n, n, n, true)
      case Compound(s) =>
        if s.decls == [] then Info(IntSizeOf(lp), IntSizeOf(lp), IntSizeOf(lp), false)
        else Info(s.size, s.align, s.size, true)
      case Basic(flags) => var n := BasicSize(lp, flags); Info(n, n, n, true)
  }

  function TypeInfo(lp: LayoutParam, t: TypeSpec, d: Declarator): Info
    requires Sized(lp, t)
    decreases t, 1
  {
    var i := ItemInfo(lp, t, d.pointer);
    i.(size := i.item * Product(Dims(d)))
  }

  lemma ProductStep(dims: seq<nat>, i: nat, size: nat)
    requires i < |dims|
    ensures size * dims[i] * Product(dims[i + 1..]) == size * Product(dims[i..])
  {
    assert dims[i..][1..] == dims[i + 1..];
    MulAssoc(size, dims[i], Product(dims[i + 1..]));
  }

  lemma MulAssoc(a: int, b: int, c: int)
    ensures a * b * c == a * (b * c)
  {
  }

  /** `get_type_info_generic`, of a declarator or of a type alone. */
  method GetTypeInfo(lp: LayoutParam, t: TypeSpec, decl: Option<Declarator>) returns (r: Info)
    requires Sized(lp, t)
    ensures r == if decl.Some? then TypeInfo(lp, t, decl.value) else ItemInfo(lp, t, false)
    decreases t
  {
    var size: nat, align: nat, known := 0, 0, true;
    if decl.Some? && decl.value.pointer {
      size := Chosen(lp.sizes.ptrSize, lp.native.ptrSize);
      align := size;
    } else {
      match t {
        case TypeRef(td) =>
          var i := GetTypeInfo(lp, td.typ, Some(td.decl));
          size, align, known := i.size, i.align, i.known;
        case Enum(sizes, _, _) =>
          size := if lp.enumSize > 0 then lp.enumSize else sizes[-lp.enumSize];
          align := size;
        case Compound(s) =>
          if s.decls == [] {
            size := Chosen(lp.sizes.intSize, lp.native.intSize);
            align, known := size, false;
          } else {
            size, align := s.size, s.align;
          }
        case Basic(flags) =>
          size := BasicSize(lp, flags);
          align := size;
      }
    }
    var item := size;
    if decl.Some? && decl.value.ext.Array? {
      var dims := decl.value.ext.dims;
      var i := 0;
      while i < |dims|
        invariant i <= |dims| && size * Product(dims[i..]) == item * Product(dims)
      {
        ProductStep(dims, i, size);
        size := size * dims[i];
        i := i + 1;
      }
      assert dims[i..] == [];
    }
    r := Info(size, align, item, known);
  }

  // ----- Placing the members of one compound -----

  /** What a layout run works with: the member alignment limit and the engine. */
  datatype Context = Context(lp: LayoutParam, isUnion: bool, limit: nat, cls: EngineClass, blockSize: nat)

  /** How far a layout run has got; open holds the engine during a run of bitfields. */
  datatype Progress = Progress(size: nat, align: nat, open: Option<Engine>)

  /** The engine at the start of a run of bitfields. */
  function Started(c: Context, offset: nat, align: nat): Engine {
    match c.cls
    case GenericClass => Generic(Unit(c.lp.order, c.limit, align, offset, 0, 0, 0))
    case MicrosoftClass => Microsoft(Unit(c.lp.order, c.limit, align, offset, 0, 0, 0))
    case SimpleClass => Simple(Block(c.lp.order, c.limit, align, offset, c.blockSize, 0, 8 * c.blockSize))
  }

  /** Bitfields have integer types and the widths C allows. */
  ghost predicate MemberOk(c: Context, t: TypeSpec, d: Declarator) {
    && Sized(c.lp, t)
    && (d.ext.Bitfield? ==>
          var i := ItemInfo(c.lp, t, d.pointer);
          i.align == i.item && FieldOk(Started(c, 0, 1), d, i.item))
  }

  ghost predicate ContextOk(c: Context) {
    c.limit > 0 && c.blockSize > 0
  }

  ghost predicate ProgressOk(c: Context, p: Progress) {
    && ContextOk(c) && p.align > 0
    && (p.open.Some? ==>
          Sane(p.open.value) && SameKind(Started(c, 0, 1), p.open.value) && Alignment(p.open.value) > 0)
  }

  function Finished(p: Progress): Progress {
    if p.open.None? then p
    else var e := FinalizeEngine(p.open.value); Progress(Offset(e), Alignment(e), None)
  }

  function RoundUp(n: nat, align: nat): (r: nat)
    requires align > 0
    ensures r >= n
  {
    if n % align > 0 then n + (align - n % align) else n
  }

  /** Room for a plain member or an unnamed compound; returns its offset. */
  function PlaceMember(c: Context, p: Progress, size: nat, align: nat): (Progress, nat)
    requires c.limit > 0 && align > 0
  {
    var q := Finished(p);
    var a := Min(align, c.limit);
    if c.isUnion then (Progress(Max(q.size, size), Max(q.align, a), None), 0)
    else
      var offset := RoundUp(q.size, a);
      (Progress(offset + size, Max(q.align, a), None), offset)
  }

  lemma StartedSane(c: Context, offset: nat, align: nat)
    requires ContextOk(c)
    ensures Sane(Started(c, offset, align)) && SameKind(Started(c, 0, 1), Started(c, offset, align))
    ensures Cursor(Started(c, offset, align)) == 8 * offset && Alignment(Started(c, offset, align)) == align
  {
  }

  /** The engine of the current run, started now if there is none. */
  ghost function RunEngine(c: Context, p: Progress): (e: Engine)
    requires ProgressOk(c, p)
    ensures Sane(e) && SameKind(Started(c, 0, 1), e) && Alignment(e) > 0
  {
    StartedSane(c, if c.isUnion then 0 else p.size, p.align);
    if p.open.Some? then p.open.value else Started(c, if c.isUnion then 0 else p.size, p.align)
  }

  /** Room for a bitfield. */
  ghost function PlaceBitfield(c: Context, p: Progress, d: Declarator, item: nat): (r: (Progress, Declarator))
    requires ProgressOk(c, p) && FieldOk(Started(c, 0, 1), d, item)
    ensures r.1.ext.Bitfield?
  {
    var e := RunEngine(c, p);
    PushLands(e, d, item);
    var q := PushField(e, d, item, item).value;
    (if c.isUnion then Finished(p.(open := Some(q.0))) else p.(open := Some(q.0)), q.1)
  }

  /** One declarator; first is where the declaration's first plain member lies, negative if none yet. */
  datatype Placed = Placed(p: Progress, decls: seq<Declarator>, first: int)

  ghost function PlaceDeclarator(c: Context, r: Placed, t: TypeSpec, d: Declarator): Placed
    requires ProgressOk(c, r.p) && MemberOk(c, t, d) && ItemInfo(c.lp, t, d.pointer).align > 0
  {
    var i := TypeInfo(c.lp, t, d);
    if d.ext.Bitfield? then
      var q := PlaceBitfield(c, r.p, d, i.item);
      Placed(q.0, r.decls + [q.1], r.first)
    else
      var q := PlaceMember(c, r.p, i.size, i.align);
      Placed(q.0, r.decls + [d.(offset := q.1, size := i.size, itemSize := i.item)],
             if !c.isUnion && r.first < 0 then q.1 else r.first)
  }

  /** The declarators of one declaration, from progress p on. */
  ghost function PlaceDeclarators(c: Context, p: Progress, t: TypeSpec, ds: seq<Declarator>): (r: Placed)
    requires ProgressOk(c, p) && DeclaratorsOk(c, t, ds)
    ensures ProgressOk(c, r.p) && |r.decls| == |ds|
  {
    if ds == [] then Placed(p, [], if c.isUnion then 0 else -1)
    else
      var q := PlaceDeclarators(c, p, t, ds[..|ds| - 1]);
      KeepsProgress(c, q, t, ds[|ds| - 1]);
      PlaceDeclarator(c, q, t, ds[|ds| - 1])
  }

  ghost predicate DeclaratorsOk(c: Context, t: TypeSpec, ds: seq<Declarator>) {
    Sized(c.lp, t) && forall d | d in ds :: MemberOk(c, t, d) && ItemInfo(c.lp, t, d.pointer).align > 0
  }

  lemma KeepsProgress(c: Context, r: Placed, t: TypeSpec, d: Declarator)
    requires ProgressOk(c, r.p) && MemberOk(c, t, d) && ItemInfo(c.lp, t, d.pointer).align > 0
    ensures ProgressOk(c, PlaceDeclarator(c, r, t, d).p)
  {
    var i := TypeInfo(c.lp, t, d);
    if d.ext.Bitfield? {
      BitfieldKeeps(c, r.p, d, i.item);
    } else {
      MemberKeeps(c, r.p, i.size, i.align);
    }
  }

  lemma BitfieldKeeps(c: Context, p: Progress, d: Declarator, item: nat)
    requires ProgressOk(c, p) && FieldOk(Started(c, 0, 1), d, item)
    ensures ProgressOk(c, PlaceBitfield(c, p, d, item).0)
  {
    var e := RunEngine(c, p);
    PushLands(e, d, item);
    FinishKeeps(c, p.(open := Some(PushField(e, d, item, item).value.0)));
  }

  lemma MemberKeeps(c: Context, p: Progress, size: nat, align: nat)
    requires ProgressOk(c, p) && align > 0
    ensures ProgressOk(c, PlaceMember(c, p, size, align).0)
  {
    FinishKeeps(c, p);
  }

  lemma FinishKeeps(c: Context, p: Progress)
    requires ProgressOk(c, p)
    ensures ProgressOk(c, Finished(p))
  {
  }

  // ----- Placing the declarations of one compound -----

  ghost predicate DeclOk(c: Context, sd: StructDecl) {
    && DeclaratorsOk(c, sd.typ, sd.declarators)
    && (sd.declarators == [] ==> ItemInfo(c.lp, sd.typ, false).align > 0)
  }

  ghost predicate DeclsOk(c: Context, decls: seq<StructDecl>) {
    forall sd | sd in decls :: DeclOk(c, sd)
  }

  ghost function PlaceDecl(c: Context, p: Progress, sd: StructDecl): (r: (Progress, StructDecl))
    requires ProgressOk(c, p) && DeclOk(c, sd)
    ensures ProgressOk(c, r.0) && r.1.typ == sd.typ && |r.1.declarators| == |sd.declarators|
  {
    if sd.declarators == [] then
      var i := ItemInfo(c.lp, sd.typ, false);
      MemberKeeps(c, p, i.size, i.align);
      var q := PlaceMember(c, p, i.size, i.align);
      (q.0, sd.(offset := q.1, size := q.0.size - q.1))
    else
      var q := PlaceDeclarators(c, p, sd.typ, sd.declarators);
      var first := if q.first < 0 then q.p.size else q.first;
      (q.p, sd.(declarators := q.decls, offset := first, size := q.p.size - first))
  }

  ghost function PlaceDecls(c: Context, p: Progress, decls: seq<StructDecl>): (r: (Progress, seq<StructDecl>))
    requires ProgressOk(c, p) && DeclsOk(c, decls)
    ensures ProgressOk(c, r.0) && |r.1| == |decls|
  {
    if decls == [] then (p, [])
    else
      var q := PlaceDecls(c, p, decls[..|decls| - 1]);
      var r := PlaceDecl(c, q.0, decls[|decls| - 1]);
      (r.0, q.1 + [r.1])
  }

  function MemberLimit(lp: LayoutParam, s: Struct): nat {
    if s.pack > 0 then s.pack else Chosen(lp.alignment, lp.nativeAlignment)
  }

  function ContextOf(cfg: Config, s: Struct): Context {
    Context(cfg.lp, s.isUnion, MemberLimit(cfg.lp, s), cfg.cls, cfg.blockSize)
  }

  /** The start of a layout run on a compound without a size. */
  function Start(cfg: Config, s: Struct): Progress {
    Progress(0, Min(MemberLimit(cfg.lp, s), Chosen(cfg.lp.compoundAlignment, cfg.lp.nativeCompoundAlignment)), None)
  }

  /** A layout run starts with whatever size the compound has: 0 unless it has been laid out before. */
  function Resumed(cfg: Config, s: Struct): Progress {
    Start(cfg, s).(size := s.size)
  }

  /** The layout of a compound whose members' types are laid out. */
  ghost function PlaceStruct(cfg: Config, s: Struct): (r: Struct)
    requires Usable(cfg) && DeclsOk(ContextOf(cfg, s), s.decls)
    ensures r.align > 0 && |r.decls| == |s.decls|
  {
    var r := PlaceDecls(ContextOf(cfg, s), Resumed(cfg, s), s.decls);
    FinishKeeps(ContextOf(cfg, s), r.0);
    var f := Finished(r.0);
    s.(decls := r.1, align := f.align, size := RoundUp(f.size, f.align))
  }

  // ----- The routine -----

  /** What the loop variables and the layouter stand for. */
  ghost function Current(size: nat, align: nat, inBitfield: bool, bl: BitfieldLayouter): Progress
    reads bl.Repr()
  {
    Progress(size, align, if inBitfield then Some(bl.State()) else None)
  }

  /** The layouter is of the configured class and has the settings of this compound. */
  ghost predicate Serves(c: Context, bl: BitfieldLayouter)
    reads bl.Repr()
  {
    && ContextOk(c) && SameKind(Started(c, 0, 1), bl.State())
  }

  /** `FINISH_BITFIELD`. */
  method FinishBitfield(c: Context, bl: BitfieldLayouter, ghost p: Progress) returns (size: nat, align: nat)
    requires Serves(c, bl) && p.open == Some(bl.State())
    modifies bl.Repr()
    ensures Serves(c, bl) && Progress(size, align, None) == Finished(p)
  {
    bl.Finalize();
    size := bl.GetOffset();
    align := bl.GetAlign();
  }

  method PushBitfield(c: Context, bl: BitfieldLayouter, size: nat, align: nat, inBitfield: bool, d: Declarator,
                      item: nat)
    returns (size': nat, align': nat, inBitfield': bool, d': Declarator)
    requires Serves(c, bl) && ProgressOk(c, Current(size, align, inBitfield, bl))
    requires FieldOk(Started(c, 0, 1), d, item)
    modifies bl.Repr()
    ensures Serves(c, bl)
    ensures (Current(size', align', inBitfield', bl), d')
        == PlaceBitfield(c, old(Current(size, align, inBitfield, bl)), d, item)
  {
    ghost var p := Current(size, align, inBitfield, bl);
    size', align', inBitfield' := size, align, inBitfield;
    if !inBitfield {
      bl.Reset();
      bl.SetAlign(align);
      if c.isUnion {
        bl.SetOffset(0);
      } else {
        bl.SetOffset(size);
        inBitfield' := true;
      }
    }
    assert bl.State() == RunEngine(c, p);
    PushLands(bl.State(), d, item);
    var ok;
    ok, d' := bl.Push(d, item, item);
    if c.isUnion {
      size', align' := FinishBitfield(c, bl, p.(open := Some(bl.State())));
      inBitfield' := false;
    }
  }

  method Pad(size: nat, align: nat) returns (r: nat)
    requires align > 0
    ensures r == RoundUp(size, align)
  {
    r := size;
    var mod := r % align;
    if mod > 0 {
      r := r + (align - mod);
    }
  }

  /** Plain members and unnamed compounds. */
  method PutMember(c: Context, bl: BitfieldLayouter, size: nat, align: nat, inBitfield: bool, mSize: nat, mAlign: nat)
    returns (size': nat, align': nat, offset: nat)
    requires Serves(c, bl) && ProgressOk(c, Current(size, align, inBitfield, bl)) && mAlign > 0
    modifies bl.Repr()
    ensures Serves(c, bl)
    ensures (Current(size', align', false, bl), offset)
        == PlaceMember(c, old(Current(size, align, inBitfield, bl)), mSize, mAlign)
  {
    size', align' := size, align;
    if inBitfield {
      size', align' := FinishBitfield(c, bl, Current(size, align, inBitfield, bl));
    }
    var a := Min(mAlign, c.limit);
    if a > align' {
      align' := a;
    }
    if c.isUnion {
      offset := 0;
      if mSize > size' {
        size' := mSize;
      }
    } else {
      size' := Pad(size', a);
      offset := size';
      size' := size' + mSize;
    }
  }

  /** One declarator: a bitfield or a plain member. */
  method LayoutDeclarator(c: Context, bl: BitfieldLayouter, size: nat, align: nat, inBitfield: bool, t: TypeSpec,
                          d: Declarator, first: int, ghost done: seq<Declarator>)
    returns (size': nat, align': nat, inBitfield': bool, d': Declarator, first': int)
    requires Serves(c, bl) && ProgressOk(c, Current(size, align, inBitfield, bl))
    requires MemberOk(c, t, d) && ItemInfo(c.lp, t, d.pointer).align > 0
    modifies bl.Repr()
    ensures Serves(c, bl)
    ensures Placed(Current(size', align', inBitfield', bl), done + [d'], first')
         == PlaceDeclarator(c, Placed(old(Current(size, align, inBitfield, bl)), done, first), t, d)
  {
    var info := GetTypeInfo(c.lp, t, Some(d));
    first' := first;
    if d.ext.Bitfield? {
      size', align', inBitfield', d' := PushBitfield(c, bl, size, align, inBitfield, d, info.item);
    } else {
      var offset;
      size', align', offset := PutMember(c, bl, size, align, inBitfield, info.size, info.align);
      inBitfield' := false;
      d' := d.(offset := offset, size := info.size, itemSize := info.item);
      if !c.isUnion && first' < 0 {
        first' := offset;
      }
    }
  }

  /** The inner loop: the declarators of one declaration. */
  method LayoutDeclarators(c: Context, bl: BitfieldLayouter, size: nat, align: nat, inBitfield: bool, sd: StructDecl)
    returns (size': nat, align': nat, inBitfield': bool, decls: seq<Declarator>, first: int)
    requires Serves(c, bl) && ProgressOk(c, Current(size, align, inBitfield, bl)) && DeclOk(c, sd)
    modifies bl.Repr()
    ensures Serves(c, bl)
    ensures Placed(Current(size', align', inBitfield', bl), decls, first)
         == PlaceDeclarators(c, old(Current(size, align, inBitfield, bl)), sd.typ, sd.declarators)
  {
    ghost var p := Current(size, align, inBitfield, bl);
    var ds := sd.declarators;
    size', align', inBitfield', decls, first := size, align, inBitfield, [], if c.isUnion then 0 else -1;
    var k := 0;
    while k < |ds|
      invariant k <= |ds| && Serves(c, bl)
      invariant Placed(Current(size', align', inBitfield', bl), decls, first) == PlaceDeclarators(c, p, sd.typ, ds[..k])
    {
      assert ds[..k + 1][..k] == ds[..k];
      var d;
      size', align', inBitfield', d, first :=
        LayoutDeclarator(c, bl, size', align', inBitfield', sd.typ, ds[k], first, decls);
      decls := decls + [d];
      k := k + 1;
    }
    assert ds[..k] == ds;
  }

  /** One declaration. */
  method LayoutDecl(c: Context, bl: BitfieldLayouter, size: nat, align: nat, inBitfield: bool, sd: StructDecl)
    returns (size': nat, align': nat, inBitfield': bool, sd': StructDecl)
    requires Serves(c, bl) && ProgressOk(c, Current(size, align, inBitfield, bl)) && DeclOk(c, sd)
    modifies bl.Repr()
    ensures Serves(c, bl)
    ensures (Current(size', align', inBitfield', bl), sd')
        == PlaceDecl(c, old(Current(size, align, inBitfield, bl)), sd)
  {
    sd' := sd;
    var first;
    if sd.declarators != [] {
      var decls;
      size', align', inBitfield', decls, first := LayoutDeclarators(c, bl, size, align, inBitfield, sd);
      sd' := sd'.(declarators := decls);
    } else {
      var info := GetTypeInfo(c.lp, sd.typ, None);
      size', align', first := PutMember(c, bl, size, align, inBitfield, info.size, info.align);
      inBitfield' := false;
    }
    if first < 0 {
      first := size';
    }
    sd' := sd'.(offset := first, size := size' - first);
  }

  /** `layout_compound_generic`: the outer loop and the final padding. */
  method LayoutCompound(cfg: Config, bl: BitfieldLayouter, s: Struct) returns (r: Struct)
    requires Usable(cfg) && DeclsOk(ContextOf(cfg, s), s.decls)
    requires bl.cls == cfg.cls && (bl.State().Simple? ==> bl.State().block.blockSize == cfg.blockSize)
    modifies bl.Repr()
    ensures r == if s.decls == [] then s else PlaceStruct(cfg, s)
    ensures bl.State().Simple? ==> bl.State().block.blockSize == cfg.blockSize
  {
    if s.decls == [] {
      return s;
    }
    var c := ContextOf(cfg, s);
    bl.SetLimits(c.limit, cfg.lp.order);
    var size, align, decls := LayoutDecls(c, bl, Resumed(cfg, s), s.decls);
    size := Pad(size, align);
    r := s.(decls := decls, align := align, size := size);
  }

  /** The outer loop: all declarations, with the last run of bitfields finished. */
  method LayoutDecls(c: Context, bl: BitfieldLayouter, start: Progress, sds: seq<StructDecl>)
    returns (size: nat, align: nat, decls: seq<StructDecl>)
    requires Serves(c, bl) && ProgressOk(c, start) && start.open == None && DeclsOk(c, sds)
    modifies bl.Repr()
    ensures align > 0 && Serves(c, bl)
    ensures var r := PlaceDecls(c, start, sds); Progress(size, align, None) == Finished(r.0) && decls == r.1
  {
    var inBitfield, k := false, 0;
    size, align, decls := start.size, start.align, [];
    while k < |sds|
      invariant k <= |sds| && Serves(c, bl)
      invariant (Current(size, align, inBitfield, bl), decls) == PlaceDecls(c, start, sds[..k])
    {
      assert sds[..k + 1][..k] == sds[..k];
      var sd;
      size, align, inBitfield, sd := LayoutDecl(c, bl, size, align, inBitfield, sds[k]);
      decls := decls + [sd];
      k := k + 1;
    }
    assert sds[..k] == sds;
    FinishKeeps(c, Current(size, align, inBitfield, bl));
    if inBitfield {
      size, align := FinishBitfield(c, bl, Current(size, align, inBitfield, bl));
    }
  }

  // ----- Types that are laid out -----

  /** Every defined compound in the type is the result of laying it out, and typedefs have their sizes. */
  ghost predicate LaidOut(cfg: Config, t: TypeSpec)
    requires Usable(cfg)
  {
    Sized(cfg.lp, t) &&
    match t
    case TypeRef(td) =>
      && LaidOut(cfg, td.typ) && !td.decl.ext.Bitfield?
      && Measures(td.decl, TypeInfo(cfg.lp, td.typ, td.decl))
    case Compound(s) => s.decls == [] || StructLaidOut(cfg, s)
    case _ => true
  }

  /** A typedef's sizes are set unless its type was never defined. */
  ghost predicate Measures(d: Declarator, i: Info) {
    if i.known then d.size == i.size && d.itemSize == i.item else d.size == -1 && d.itemSize == -1
  }

  ghost predicate StructLaidOut(cfg: Config, s: Struct)
    requires Usable(cfg)
  {
    && (forall sd | sd in s.decls :: LaidOut(cfg, sd.typ))
    && DeclsOk(ContextOf(cfg, s), s.decls)
    && s == PlaceStruct(cfg, s.(size := 0))
  }
}
