/**
 Which bytes of the buffer an integer is, and what they say: its place, its size, its sign and its byte
 order, along the path through arrays, typedefs and structs that leads to it.
 */
module PackingMeaning {
  import Bits
  import opened IntegerMemory
  import opened IntegerBytes
  import opened CTypes
  import opened Layout
  import opened PackBuffer
  import opened Packing
  import opened PackingRoundTrip

  /** One integer in a buffer; bits is 0 if it has its container to itself. */
  datatype Spot = Spot(pos: nat, size: nat, bits: nat, shift: nat, signed: bool, order: ByteOrder)

  /** A step towards an integer: an element of an array, a member by declaration and declarator, or into an
      unnamed struct. */
  datatype Hop = Item(index: nat) | Member(decl: nat, declarator: nat) | Unnamed(decl: nat)

  type Path = seq<Hop>

  // ----- Where a path leads -----

  /** Where element k of an array, after dim indices, starts. */
  ghost function StartOf(d: Declarator, dim: nat, pos: nat, k: nat): nat
    requires dim < |Dims(d)| && d.itemSize > 0
  {
    pos + k * (d.itemSize * Product(d.ext.dims[dim + 1..]))
  }

  ghost function TypeSpot(pc: PackConfig, pos: nat, order: ByteOrder, t: TypeSpec, d: Declarator, dim: nat,
                          bi: Option<BitInfo>, path: Path): Option<Spot>
    requires DeclPackable(pc, t, d, bi)
    decreases t, 1, |Dims(d)| - dim
  {
    var o := if dim == 0 && d.order.Some? then d.order.value else order;
    if dim < |Dims(d)| then
      if path != [] && path[0].Item? && path[0].index < d.ext.dims[dim] then
        TypeSpot(pc, StartOf(d, dim, pos, path[0].index), o, t, d, dim + 1, None, path[1..])
      else None
    else if d.pointer then
      if path == [] then Some(Spot(pos, PointerSize(pc.cfg.lp), 0, 0, false, o)) else None
    else ItemSpot(pc, pos, o, t, bi, path)
  }

  ghost function ItemSpot(pc: PackConfig, pos: nat, order: ByteOrder, t: TypeSpec, bi: Option<BitInfo>,
                          path: Path): Option<Spot>
    requires Packable(pc, t, bi)
    decreases t, 0
  {
    match t
    case TypeRef(td) => TypeSpot(pc, pos, order, td.typ, td.decl, 0, bi, path)
    case Compound(s) =>
      assert StructPackable(pc, s);
      StructSpot(pc, pos, if s.order.Some? then s.order.value else order, s.decls, path)
    case Enum(sizes, signed, tag) =>
      if path != [] then None
      else
        var n := pc.cfg.lp.enumSize;
        var size := if n > 0 then n else if bi.None? then sizes[-n] else 0;
        Some(SpotIn(pc, pos, size, signed, bi, if tag.Some? then tag.value else order))
    case Basic(flags) =>
      if path != [] then None
      else Some(SpotIn(pc, pos, BasicSize(pc.cfg.lp, flags), SignedIs(pc, flags, bi), bi, order))
  }

  /** A bitfield is in its container, in the byte order of the layout. */
  ghost function SpotIn(pc: PackConfig, pos: nat, size: nat, signed: bool, bi: Option<BitInfo>,
                        order: ByteOrder): Spot {
    match bi
    case None => Spot(pos, size, 0, 0, signed, order)
    case Some(f) => Spot(pos, f.bytes, f.bits, f.pos, signed, pc.cfg.lp.order)
  }

  /** `unsigned` is, `signed` is not, and without either it depends: for bitfields and for characters on a setting. */
  ghost predicate SignedIs(pc: PackConfig, flags: set<Flag>, bi: Option<BitInfo>) {
    if UNSIGNED in flags then false
    else if SIGNED in flags then true
    else if bi.Some? then !pc.unsignedBitfields
    else if CHAR in flags && VOID !in flags then !pc.unsignedChars
    else true
  }

  ghost function StructSpot(pc: PackConfig, pos: nat, order: ByteOrder, decls: seq<StructDecl>,
                            path: Path): Option<Spot>
    requires forall sd | sd in decls :: SdPackable(pc, sd)
    decreases decls
  {
    if path == [] then None
    else
      match path[0]
      case Item(_) => None
      case Member(i, j) =>
        if i < |decls| && j < |decls[i].declarators| then
          assert SdPackable(pc, decls[i]) && decls[i].declarators[j] in decls[i].declarators;
          MemberSpot(pc, pos, order, decls[i].typ, decls[i].declarators[j], path[1..])
        else None
      case Unnamed(i) =>
        if i < |decls| && decls[i].declarators == [] then
          assert SdPackable(pc, decls[i]);
          UnnamedSpot(pc, pos + decls[i].offset, order, decls[i].typ, path[1..])
        else None
  }

  ghost function MemberSpot(pc: PackConfig, pos: nat, order: ByteOrder, t: TypeSpec, d: Declarator,
                            path: Path): Option<Spot>
    requires d.name != [] ==> d.offset >= 0 && MemberPackable(pc, t, d)
    decreases t, 2
  {
    if d.name == [] then None else TypeSpot(pc, pos + d.offset, order, t, d, 0, BitsOf(d), path)
  }

  /** The tag of an unnamed struct is not looked at. */
  ghost function UnnamedSpot(pc: PackConfig, pos: nat, order: ByteOrder, t: TypeSpec, path: Path): Option<Spot>
    requires UnnamedPackable(pc, t)
    decreases t, 2
  {
    match t
    case Compound(s) =>
      assert StructPackable(pc, s);
      StructSpot(pc, pos, order, s.decls, path)
    case TypeRef(td) => UnnamedSpot(pc, pos, order, td.typ, path)
    case _ => None
  }

  // ----- What is there in a value -----

  ghost function DatumAt(t: TypeSpec, d: Declarator, dim: nat, v: Datum, path: Path): Option<Datum>
    decreases t, 1, |Dims(d)| - dim
  {
    if dim < |Dims(d)| then
      if path != [] && path[0].Item? && v.Arr? && path[0].index < |v.items| then
        DatumAt(t, d, dim + 1, v.items[path[0].index], path[1..])
      else None
    else if d.pointer then if path == [] then Some(v) else None
    else ItemDatum(t, v, path)
  }

  ghost function ItemDatum(t: TypeSpec, v: Datum, path: Path): Option<Datum>
    decreases t, 0
  {
    match t
    case TypeRef(td) => DatumAt(td.typ, td.decl, 0, v, path)
    case Compound(s) => if v.Hash? then StructDatum(s.decls, v.members, path) else None
    case _ => if path == [] then Some(v) else None
  }

  ghost function StructDatum(decls: seq<StructDecl>, m: map<string, Datum>, path: Path): Option<Datum>
    decreases decls
  {
    if path == [] then None
    else
      match path[0]
      case Item(_) => None
      case Member(i, j) =>
        if i < |decls| && j < |decls[i].declarators| then
          MemberDatum(decls[i].typ, decls[i].declarators[j], m, path[1..])
        else None
      case Unnamed(i) => if i < |decls| then UnnamedDatum(decls[i].typ, m, path[1..]) else None
  }

  ghost function MemberDatum(t: TypeSpec, d: Declarator, m: map<string, Datum>, path: Path): Option<Datum>
    decreases t, 2
  {
    if d.name in m then DatumAt(t, d, 0, m[d.name], path) else None
  }

  ghost function UnnamedDatum(t: TypeSpec, m: map<string, Datum>, path: Path): Option<Datum>
    decreases t, 2
  {
    match t
    case Compound(s) => StructDatum(s.decls, m, path)
    case TypeRef(td) => UnnamedDatum(td.typ, m, path)
    case _ => None
  }

  // ----- What unpacking reads -----

  /** No name comes twice in a compound. */
  ghost predicate Distinct(t: TypeSpec) {
    match t
    case TypeRef(td) => td.decl.pointer || Distinct(td.typ)
    case Compound(s) => UniqueDecls(s.decls) && forall sd | sd in s.decls :: DistinctDecl(sd)
    case Basic(flags) => !(CHAR in flags && LONGLONG in flags)
    case _ => true
  }

  ghost predicate DistinctDecl(sd: StructDecl) {
    && (sd.declarators == [] ==> Distinct(sd.typ))
    && forall d | d in sd.declarators && !d.pointer && d.name != [] :: Distinct(sd.typ)
  }

  /** What the buffer says at a spot; nothing if it ends before. */
  ghost function ReadAt(b: seq<byte>, x: Spot): Datum {
    if x.size == 0 || x.pos + x.size > |b| then Undef
    else Num(FieldIn(b[x.pos..x.pos + x.size], x.bits, x.shift, x.signed, x.order))
  }

  lemma {:induction false} IntMeans(pc: PackConfig, b: seq<byte>, pos: nat, l: Leaf, order: ByteOrder)
    requires LeafOk(pc.word, l)
    ensures UnpackedInt(pc, b, pos, l, order)
         == ReadAt(b, Spot(pos, l.size, l.bits, l.shift, l.sign, if l.bits > 0 then pc.cfg.lp.order else order))
  {
    if pos + l.size <= |b| {
      FetchMeans(pc.word, b[pos..pos + l.size], l.sign, l.bits, l.shift, if l.bits > 0 then pc.cfg.lp.order else order);
    }
  }

  lemma {:induction false} ItemsMean(pc: PackConfig, b: seq<byte>, pos: nat, order: ByteOrder, t: TypeSpec,
                                     d: Declarator, dim: nat, n: nat, k: nat)
    requires DeclPackable(pc, t, d, None) && dim < |Dims(d)| && k < n
    ensures UnpackedItems(pc, b, pos, order, t, d, dim, n)[k]
         == UnpackedType(pc, b, StartOf(d, dim, pos, k), order, t, d, dim + 1, None)
    decreases n
  {
    if k < n - 1 {
      ItemsMean(pc, b, pos, order, t, d, dim, n - 1, k);
    } else {
      ElementIs(pos, k, Stride(d, dim));
    }
  }

  /** Every integer of an unpacked value is what its bytes say, in unions too. */
  lemma {:induction false} TypeMeans(pc: PackConfig, b: seq<byte>, pos: nat, order: ByteOrder, t: TypeSpec,
                                     d: Declarator, dim: nat, bi: Option<BitInfo>, path: Path)
    requires DeclPackable(pc, t, d, bi) && (d.pointer || Distinct(t)) && BitsOk(bi)
    requires TypeSpot(pc, pos, order, t, d, dim, bi, path).Some?
    ensures DatumAt(t, d, dim, UnpackedType(pc, b, pos, order, t, d, dim, bi), path)
         == Some(ReadAt(b, TypeSpot(pc, pos, order, t, d, dim, bi, path).value))
    decreases t, 1, |Dims(d)| - dim
  {
    var o := if dim == 0 && d.order.Some? then d.order.value else order;
    if dim < |Dims(d)| {
      ArrayMeans(pc, b, pos, order, t, d, dim, bi, path);
    } else if d.pointer {
      IntMeans(pc, b, pos, PointerLeaf(pc), o);
    } else {
      ItemMeans(pc, b, pos, o, t, bi, path);
    }
  }

  lemma {:induction false} ArrayMeans(pc: PackConfig, b: seq<byte>, pos: nat, order: ByteOrder, t: TypeSpec,
                                      d: Declarator, dim: nat, bi: Option<BitInfo>, path: Path)
    requires DeclPackable(pc, t, d, bi) && (d.pointer || Distinct(t)) && BitsOk(bi) && dim < |Dims(d)|
    requires TypeSpot(pc, pos, order, t, d, dim, bi, path).Some?
    ensures DatumAt(t, d, dim, UnpackedType(pc, b, pos, order, t, d, dim, bi), path)
         == Some(ReadAt(b, TypeSpot(pc, pos, order, t, d, dim, bi, path).value))
    decreases t, 1, |Dims(d)| - dim, 0
  {
    var o := if dim == 0 && d.order.Some? then d.order.value else order;
    var k := path[0].index;
    var items := UnpackedItems(pc, b, pos, o, t, d, dim, d.ext.dims[dim]);
    ItemsMean(pc, b, pos, o, t, d, dim, d.ext.dims[dim], k);
    assert DatumAt(t, d, dim, Arr(items), path) == DatumAt(t, d, dim + 1, items[k], path[1..]);
    TypeMeans(pc, b, StartOf(d, dim, pos, k), o, t, d, dim + 1, None, path[1..]);
  }

  lemma {:induction false} ItemMeans(pc: PackConfig, b: seq<byte>, pos: nat, order: ByteOrder, t: TypeSpec,
                                     bi: Option<BitInfo>, path: Path)
    requires Packable(pc, t, bi) && Distinct(t) && BitsOk(bi) && ItemSpot(pc, pos, order, t, bi, path).Some?
    ensures ItemDatum(t, UnpackedItem(pc, b, pos, order, t, bi), path)
         == Some(ReadAt(b, ItemSpot(pc, pos, order, t, bi, path).value))
    decreases t, 0
  {
    match t
    case TypeRef(td) => TypeMeans(pc, b, pos, order, td.typ, td.decl, 0, bi, path);
    case Compound(s) =>
      var o := if s.order.Some? then s.order.value else order;
      assert StructPackable(pc, s);
      DeclsMean(pc, b, pos, o, s.decls, map[], UnpackedDecls(pc, b, pos, o, s.decls, map[]), path);
    case _ => LeafMeans(pc, b, pos, order, t, bi);
  }

  /** An integer alone. */
  lemma {:induction false} LeafMeans(pc: PackConfig, b: seq<byte>, pos: nat, order: ByteOrder, t: TypeSpec,
                                     bi: Option<BitInfo>)
    requires Packable(pc, t, bi) && Distinct(t) && BitsOk(bi) && (t.Basic? || t.Enum?)
    ensures ItemSpot(pc, pos, order, t, bi, []).Some?
    ensures UnpackedItem(pc, b, pos, order, t, bi) == ReadAt(b, ItemSpot(pc, pos, order, t, bi, []).value)
  {
    match t
    case Enum(sizes, signed, tag) =>
      IntMeans(pc, b, pos, EnumLeaf(pc, sizes, signed, bi), if tag.Some? then tag.value else order);
    case Basic(flags) =>
      IntMeans(pc, b, pos, BasicLeaf(pc, flags, bi), order);
  }

  // ----- Hashes -----

  /** m has all that h has. */
  ghost predicate Extends(h: map<string, Datum>, m: map<string, Datum>) {
    forall n | n in h :: n in m && m[n] == h[n]
  }

  lemma {:induction false} DeclsExtend(pc: PackConfig, b: seq<byte>, pos: nat, order: ByteOrder, decls: seq<StructDecl>,
                                       h: map<string, Datum>)
    requires forall sd | sd in decls :: SdPackable(pc, sd)
    ensures var m := UnpackedDecls(pc, b, pos, order, decls, h); Extends(h, m) && m.Keys == h.Keys + Names(decls)
    decreases decls
  {
    if decls != [] {
      DeclsExtend(pc, b, pos, order, decls[..|decls| - 1], h);
      DeclExtends(pc, b, pos, order, decls[|decls| - 1],
                  UnpackedDecls(pc, b, pos, order, decls[..|decls| - 1], h));
    }
  }

  lemma {:induction false} DeclExtends(pc: PackConfig, b: seq<byte>, pos: nat, order: ByteOrder, sd: StructDecl,
                                       h: map<string, Datum>)
    requires SdPackable(pc, sd)
    ensures var m := UnpackedDecl(pc, b, pos, order, sd, h); Extends(h, m) && m.Keys == h.Keys + DeclNames(sd)
    decreases sd
  {
    if sd.declarators == [] {
      UnnamedExtends(pc, b, pos + sd.offset, order, sd.typ, h);
    } else {
      MembersExtend(pc, b, pos, order, sd.typ, sd.declarators, h);
    }
  }

  lemma {:induction false} UnnamedExtends(pc: PackConfig, b: seq<byte>, pos: nat, order: ByteOrder, t: TypeSpec,
                                          h: map<string, Datum>)
    requires UnnamedPackable(pc, t)
    ensures var m := UnpackedUnnamed(pc, b, pos, order, t, h); Extends(h, m) && m.Keys == h.Keys + TypeNames(t)
    decreases t, 2
  {
    match t
    case Compound(s) =>
      assert StructPackable(pc, s);
      DeclsExtend(pc, b, pos, order, s.decls, h);
    case TypeRef(td) => UnnamedExtends(pc, b, pos, order, td.typ, h);
    case _ =>
  }

  lemma {:induction false} MembersExtend(pc: PackConfig, b: seq<byte>, pos: nat, order: ByteOrder, t: TypeSpec,
                                         ds: seq<Declarator>, h: map<string, Datum>)
    requires MembersPackable(pc, t, ds)
    ensures var m := UnpackedMembers(pc, b, pos, order, t, ds, h); Extends(h, m) && m.Keys == h.Keys + MemberNames(ds)
    decreases |ds|
  {
    if ds != [] {
      MembersExtend(pc, b, pos, order, t, ds[..|ds| - 1], h);
    }
  }

  /** Every integer of the members, looked up in a hash that has them. */
  lemma {:induction false} DeclsMean(pc: PackConfig, b: seq<byte>, pos: nat, order: ByteOrder, decls: seq<StructDecl>,
                                     h: map<string, Datum>, m: map<string, Datum>, path: Path)
    requires (forall sd | sd in decls :: SdPackable(pc, sd) && DistinctDecl(sd)) && UniqueDecls(decls)
    requires Names(decls) !! h.Keys && Extends(UnpackedDecls(pc, b, pos, order, decls, h), m)
    requires StructSpot(pc, pos, order, decls, path).Some?
    ensures StructDatum(decls, m, path) == Some(ReadAt(b, StructSpot(pc, pos, order, decls, path).value))
    decreases decls
  {
    var first, sd := decls[..|decls| - 1], decls[|decls| - 1];
    var h' := UnpackedDecls(pc, b, pos, order, first, h);
    DeclsExtend(pc, b, pos, order, first, h);
    DeclExtends(pc, b, pos, order, sd, h');
    var i := if path[0].Member? then path[0].decl else path[0].decl;
    if i < |first| {
      assert decls[i] == first[i];
      DeclsMean(pc, b, pos, order, first, h, m, path);
    } else {
      DeclMeans(pc, b, pos, order, decls, h', m, path);
    }
  }

  /** The last declaration. */
  lemma {:induction false} DeclMeans(pc: PackConfig, b: seq<byte>, pos: nat, order: ByteOrder, decls: seq<StructDecl>,
                                     h: map<string, Datum>, m: map<string, Datum>, path: Path)
    requires (forall sd | sd in decls :: SdPackable(pc, sd)) && decls != [] && path != [] && !path[0].Item?
    requires path[0].decl == |decls| - 1
    requires var sd := decls[|decls| - 1];
      DistinctDecl(sd) && UniqueMembers(sd.declarators) && DeclNames(sd) !! h.Keys
      && Extends(UnpackedDecl(pc, b, pos, order, sd, h), m)
    requires StructSpot(pc, pos, order, decls, path).Some?
    ensures StructDatum(decls, m, path) == Some(ReadAt(b, StructSpot(pc, pos, order, decls, path).value))
    decreases decls[|decls| - 1], 0
  {
    var sd := decls[|decls| - 1];
    assert sd in decls && SdPackable(pc, sd);
    if path[0].Unnamed? {
      UnnamedMeans(pc, b, pos + sd.offset, order, sd.typ, h, m, path[1..]);
    } else {
      var d := sd.declarators[path[0].declarator];
      assert d in sd.declarators && MembersPackable(pc, sd.typ, sd.declarators);
      MemberIs(pc, b, pos, order, sd.typ, sd.declarators, path[0].declarator, h);
      TypeMeans(pc, b, pos + d.offset, order, sd.typ, d, 0, BitsOf(d), path[1..]);
    }
  }

  lemma {:induction false} UnnamedMeans(pc: PackConfig, b: seq<byte>, pos: nat, order: ByteOrder, t: TypeSpec,
                                        h: map<string, Datum>, m: map<string, Datum>, path: Path)
    requires UnnamedPackable(pc, t) && Distinct(t) && TypeNames(t) !! h.Keys
    requires Extends(UnpackedUnnamed(pc, b, pos, order, t, h), m) && UnnamedSpot(pc, pos, order, t, path).Some?
    ensures UnnamedDatum(t, m, path) == Some(ReadAt(b, UnnamedSpot(pc, pos, order, t, path).value))
    decreases t, 2
  {
    match t
    case Compound(s) =>
      assert StructPackable(pc, s);
      DeclsMean(pc, b, pos, order, s.decls, h, m, path);
    case TypeRef(td) => UnnamedMeans(pc, b, pos, order, td.typ, h, m, path);
    case _ =>
  }

  /** The value of a member whose name is new. */
  lemma {:induction false} MemberIs(pc: PackConfig, b: seq<byte>, pos: nat, order: ByteOrder, t: TypeSpec,
                                    ds: seq<Declarator>, j: nat, h: map<string, Datum>)
    requires MembersPackable(pc, t, ds) && UniqueMembers(ds) && MemberNames(ds) !! h.Keys
    requires j < |ds| && ds[j].name != [] && ds[j] in ds
    ensures var m := UnpackedMembers(pc, b, pos, order, t, ds, h);
      ds[j].name in m && m[ds[j].name] == UnpackedType(pc, b, pos + ds[j].offset, order, t, ds[j], 0, BitsOf(ds[j]))
    decreases |ds|
  {
    var first := ds[..|ds| - 1];
    MembersExtend(pc, b, pos, order, t, first, h);
    if j < |first| {
      assert first[j] == ds[j];
      MemberIs(pc, b, pos, order, t, first, j, h);
    }
  }
}
