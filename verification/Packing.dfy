/**
 Packing values into buffers and unpacking them, along a laid-out type. What is written and read
 are functions that get position and byte order as parameters; the handle's routines, which keep
 both in fields that change on the way, are proved to compute them and to leave the byte order as
 they found it.
 */
module Packing {
  import opened Bits
  import opened IntegerMemory
  import opened CTypes
  import opened Layout
  import opened PackBuffer

  /** Perl values: undefined, integers, array and hash references. */
  datatype Datum = Undef | Num(value: int) | Arr(items: seq<Datum>) | Hash(members: map<string, Datum>)

  /** word is the width of the widest integer. */
  datatype PackConfig = PackConfig(cfg: Config, unsignedChars: bool, unsignedBitfields: bool, word: nat)

  // ----- Leaves -----

  /** The place of a bitfield in its container. */
  datatype BitInfo = BitInfo(bytes: nat, bits: nat, pos: nat)

  function LoadSize(lp: LayoutParam, flags: set<Flag>): nat {
    if VOID in flags then 1
    else if CHAR in flags then Chosen(lp.sizes.charSize, lp.native.charSize)
    else BasicSize(lp, flags)
  }

  function Plainly(flags: set<Flag>): bool {
    SIGNED !in flags && UNSIGNED !in flags
  }

  /** `load_size`: container and signedness of a basic type. */
  function BasicLeaf(pc: PackConfig, flags: set<Flag>, bi: Option<BitInfo>): Leaf {
    match bi
    case Some(f) =>
      Leaf(f.bytes, f.bits, f.pos, UNSIGNED !in flags && !(pc.unsignedBitfields && Plainly(flags)))
    case None =>
      var unsignedChar := VOID !in flags && CHAR in flags && pc.unsignedChars && Plainly(flags);
      Leaf(LoadSize(pc.cfg.lp, flags), 0, 0, UNSIGNED !in flags && !unsignedChar)
  }

  function EnumLeaf(pc: PackConfig, sizes: seq<nat>, signed: bool, bi: Option<BitInfo>): Leaf
    requires bi.Some? || pc.cfg.lp.enumSize > 0 || -pc.cfg.lp.enumSize < |sizes|
  {
    match bi
    case Some(f) => Leaf(f.bytes, f.bits, f.pos, signed)
    case None => Leaf(EnumSize(pc.cfg.lp, sizes), 0, 0, signed)
  }

  function PointerLeaf(pc: PackConfig): Leaf {
    Leaf(PointerSize(pc.cfg.lp), 0, 0, false)
  }

  function BitsOf(d: Declarator): Option<BitInfo>
    requires d.ext.Bitfield? ==> d.ext.bytes >= 0 && d.ext.pos >= 0
  {
    if d.ext.Bitfield? then Some(BitInfo(d.ext.bytes, d.ext.bits, d.ext.pos)) else None
  }

  // ----- What the library asserts about types it packs -----

  /** An item of type t, possibly a bitfield, made of integers and pointers. */
  ghost predicate Packable(pc: PackConfig, t: TypeSpec, bi: Option<BitInfo>)
    decreases t, 0
  {
    match t
    case Basic(flags) => FLOAT !in flags && DOUBLE !in flags && LeafOk(pc.word, BasicLeaf(pc, flags, bi))
    case Enum(sizes, signed, _) =>
      && (bi.Some? || pc.cfg.lp.enumSize > 0 || -pc.cfg.lp.enumSize < |sizes|)
      && LeafOk(pc.word, EnumLeaf(pc, sizes, signed, bi))
    case TypeRef(td) =>
      !td.decl.ext.Bitfield? && DeclPackable(pc, td.typ, td.decl, bi)
    case Compound(s) => bi.None? && StructPackable(pc, s)
  }

  ghost predicate DeclPackable(pc: PackConfig, t: TypeSpec, d: Declarator, bi: Option<BitInfo>)
    decreases t, 1
  {
    && (d.ext.Array? ==> d.itemSize > 0) && (d.ext.Array? || d.pointer ==> bi.None?)
    && (if d.pointer then LeafOk(pc.word, PointerLeaf(pc)) else Packable(pc, t, bi))
  }

  ghost predicate StructPackable(pc: PackConfig, s: Struct)
    decreases s
  {
    s.decls != [] && forall sd | sd in s.decls :: SdPackable(pc, sd)
  }

  ghost predicate SdPackable(pc: PackConfig, sd: StructDecl)
    decreases sd
  {
    && (sd.declarators == [] ==> sd.offset >= 0 && UnnamedPackable(pc, sd.typ))
    && forall d | d in sd.declarators && d.name != [] :: d.offset >= 0 && MemberPackable(pc, sd.typ, d)
  }

  ghost predicate MemberPackable(pc: PackConfig, t: TypeSpec, d: Declarator)
    decreases t, 2
  {
    && (d.ext.Bitfield? ==> d.ext.bytes >= 0 && d.ext.pos >= 0 && d.ext.bits > 0 && !d.pointer)
    && DeclPackable(pc, t, d, BitsOf(d))
  }

  ghost predicate UnnamedPackable(pc: PackConfig, t: TypeSpec)
    decreases t, 2
  {
    match t
    case Compound(s) => StructPackable(pc, s)
    case TypeRef(td) => !td.decl.pointer && !td.decl.ext.Array? && UnnamedPackable(pc, td.typ)
    case _ => false
  }

  // ----- Packing -----

  function Tagged(order: ByteOrder, tag: Option<ByteOrder>): ByteOrder {
    if tag.Some? then tag.value else order
  }

  /** Bitfields are stored in the byte order of the layout, everything else in the current one. */
  function LeafOrder(pc: PackConfig, order: ByteOrder, l: Leaf): ByteOrder {
    if l.bits > 0 then pc.cfg.lp.order else order
  }

  function PackedInt(pc: PackConfig, b: seq<byte>, pos: nat, l: Leaf, order: ByteOrder, v: Datum): (r: seq<byte>)
    requires LeafOk(pc.word, l)
    ensures |r| >= |b|
  {
    if v.Num? then WriteLeaf(pc.word, b, pos, l, LeafOrder(pc, order, l), PatternOf(pc.word, v.value))
    else Grown(b, pos + l.size)
  }

  /** Bytes that one element of dimension dim takes. */
  function Stride(d: Declarator, dim: nat): nat
    requires d.ext.Array? && d.itemSize > 0 && dim < |d.ext.dims|
  {
    d.itemSize * Product(d.ext.dims[dim + 1..])
  }

  /** Where element k of an array at byte pos starts. */
  function Element(pos: nat, k: nat, stride: nat): nat
    decreases k
  {
    if k == 0 then pos else Element(pos, k - 1, stride) + stride
  }

  lemma {:induction false} ElementIs(pos: nat, k: nat, stride: nat)
    ensures Element(pos, k, stride) == pos + k * stride
    decreases k
  {
    if k > 0 {
      ElementIs(pos, k - 1, stride);
      OneMore(k, stride);
    }
  }

  lemma OneMore(k: int, stride: int)
    ensures (k - 1) * stride + stride == k * stride
  {
  }

  /** `pack_type`, for an item or what is left of an array declarator after dim indices. */
  function PackedType(pc: PackConfig, b: seq<byte>, pos: nat, order: ByteOrder, t: TypeSpec, d: Declarator, dim: nat,
                      bi: Option<BitInfo>, v: Datum): (r: seq<byte>)
    requires DeclPackable(pc, t, d, bi)
    ensures |r| >= |b|
    decreases t, 1, 2 * (|Dims(d)| - dim) + 1, 0
  {
    var o := if dim == 0 then Tagged(order, d.order) else order;
    if dim < |Dims(d)| then
      if v.Arr? then PackedItems(pc, b, pos, o, t, d, dim, v.items, d.ext.dims[dim])
      else Grown(b, pos + d.itemSize * Product(d.ext.dims[dim..]))
    else if d.pointer then PackedInt(pc, b, pos, PointerLeaf(pc), o, v)
    else PackedItem(pc, b, pos, o, t, bi, v)
  }

  /** The first n elements of an array. */
  function PackedItems(pc: PackConfig, b: seq<byte>, pos: nat, order: ByteOrder, t: TypeSpec, d: Declarator, dim: nat,
                       items: seq<Datum>, n: nat): (r: seq<byte>)
    requires DeclPackable(pc, t, d, None) && dim < |Dims(d)|
    ensures |r| >= |b|
    decreases t, 1, 2 * (|Dims(d)| - dim), n
  {
    if n == 0 then b
    else
      var c := PackedItems(pc, b, pos, order, t, d, dim, items, n - 1);
      if n - 1 < |items| then
        PackedType(pc, c, Element(pos, n - 1, Stride(d, dim)), order, t, d, dim + 1, None, items[n - 1])
      else c
  }

  function PackedItem(pc: PackConfig, b: seq<byte>, pos: nat, order: ByteOrder, t: TypeSpec, bi: Option<BitInfo>,
                      v: Datum): (r: seq<byte>)
    requires Packable(pc, t, bi)
    ensures |r| >= |b|
    decreases t, 0
  {
    match t
    case TypeRef(td) => PackedType(pc, b, pos, order, td.typ, td.decl, 0, bi, v)
    case Compound(s) => PackedStruct(pc, b, pos, Tagged(order, s.order), s, v)
    case Enum(sizes, signed, tag) => PackedInt(pc, b, pos, EnumLeaf(pc, sizes, signed, bi), Tagged(order, tag), v)
    case Basic(flags) => PackedInt(pc, b, pos, BasicLeaf(pc, flags, bi), order, v)
  }

  function PackedStruct(pc: PackConfig, b: seq<byte>, pos: nat, order: ByteOrder, s: Struct, v: Datum): (r: seq<byte>)
    requires StructPackable(pc, s)
    ensures |r| >= |b|
    decreases s
  {
    if v.Hash? then PackedDecls(pc, b, pos, order, s.decls, v.members) else b
  }

  function PackedDecls(pc: PackConfig, b: seq<byte>, pos: nat, order: ByteOrder, decls: seq<StructDecl>,
                       m: map<string, Datum>): (r: seq<byte>)
    requires forall sd | sd in decls :: SdPackable(pc, sd)
    ensures |r| >= |b|
    decreases decls
  {
    if decls == [] then b
    else
      var c := PackedDecls(pc, b, pos, order, decls[..|decls| - 1], m);
      PackedDecl(pc, c, pos, order, decls[|decls| - 1], m)
  }

  function PackedDecl(pc: PackConfig, b: seq<byte>, pos: nat, order: ByteOrder, sd: StructDecl,
                      m: map<string, Datum>): (r: seq<byte>)
    requires SdPackable(pc, sd)
    ensures |r| >= |b|
    decreases sd
  {
    if sd.declarators == [] then PackedUnnamed(pc, b, pos + sd.offset, order, sd.typ, m)
    else PackedMembers(pc, b, pos, order, sd.typ, sd.declarators, m)
  }

  ghost predicate MembersPackable(pc: PackConfig, t: TypeSpec, ds: seq<Declarator>) {
    forall d | d in ds && d.name != [] :: d.offset >= 0 && MemberPackable(pc, t, d)
  }

  function PackedMembers(pc: PackConfig, b: seq<byte>, pos: nat, order: ByteOrder, t: TypeSpec, ds: seq<Declarator>,
                         m: map<string, Datum>): (r: seq<byte>)
    requires MembersPackable(pc, t, ds)
    ensures |r| >= |b|
    decreases t, 3, |ds|
  {
    if ds == [] then b
    else
      var c := PackedMembers(pc, b, pos, order, t, ds[..|ds| - 1], m);
      PackedMember(pc, c, pos, order, t, ds[|ds| - 1], m)
  }

  /** A member without a name, or without a value, is skipped. */
  function PackedMember(pc: PackConfig, b: seq<byte>, pos: nat, order: ByteOrder, t: TypeSpec, d: Declarator,
                        m: map<string, Datum>): (r: seq<byte>)
    requires d.name != [] ==> d.offset >= 0 && MemberPackable(pc, t, d)
    ensures |r| >= |b|
    decreases t, 2
  {
    if d.name != [] && d.name in m then PackedType(pc, b, pos + d.offset, order, t, d, 0, BitsOf(d), m[d.name]) else b
  }

  /** Unnamed members take their values from the same hash, and their own tags are skipped. */
  function PackedUnnamed(pc: PackConfig, b: seq<byte>, pos: nat, order: ByteOrder, t: TypeSpec,
                         m: map<string, Datum>): (r: seq<byte>)
    requires UnnamedPackable(pc, t)
    ensures |r| >= |b|
    decreases t, 2
  {
    match t
    case Compound(s) =>
      assert StructPackable(pc, s);
      PackedDecls(pc, b, pos, order, s.decls, m)
    case TypeRef(td) => PackedUnnamed(pc, b, pos, order, td.typ, m)
    case _ => b
  }

  // ----- Unpacking -----

  /** Undefined when the buffer is too short. */
  function UnpackedInt(pc: PackConfig, b: seq<byte>, pos: nat, l: Leaf, order: ByteOrder): Datum
    requires LeafOk(pc.word, l)
  {
    if pos + l.size > |b| then Undef
    else Num(ValueOf(pc.word, ReadLeaf(pc.word, b, pos, l, LeafOrder(pc, order, l)), l.sign))
  }

  /** `unpack_type`. */
  function UnpackedType(pc: PackConfig, b: seq<byte>, pos: nat, order: ByteOrder, t: TypeSpec, d: Declarator, dim: nat,
                        bi: Option<BitInfo>): Datum
    requires DeclPackable(pc, t, d, bi)
    decreases t, 1, 2 * (|Dims(d)| - dim) + 1, 0
  {
    var o := if dim == 0 then Tagged(order, d.order) else order;
    if dim < |Dims(d)| then Arr(UnpackedItems(pc, b, pos, o, t, d, dim, d.ext.dims[dim]))
    else if d.pointer then UnpackedInt(pc, b, pos, PointerLeaf(pc), o)
    else UnpackedItem(pc, b, pos, o, t, bi)
  }

  function UnpackedItems(pc: PackConfig, b: seq<byte>, pos: nat, order: ByteOrder, t: TypeSpec, d: Declarator, dim: nat,
                         n: nat): (r: seq<Datum>)
    requires DeclPackable(pc, t, d, None) && dim < |Dims(d)|
    ensures |r| == n
    decreases t, 1, 2 * (|Dims(d)| - dim), n
  {
    if n == 0 then []
    else
      UnpackedItems(pc, b, pos, order, t, d, dim, n - 1)
      + [UnpackedType(pc, b, Element(pos, n - 1, Stride(d, dim)), order, t, d, dim + 1, None)]
  }

  function UnpackedItem(pc: PackConfig, b: seq<byte>, pos: nat, order: ByteOrder, t: TypeSpec,
                        bi: Option<BitInfo>): Datum
    requires Packable(pc, t, bi)
    decreases t, 0
  {
    match t
    case TypeRef(td) => UnpackedType(pc, b, pos, order, td.typ, td.decl, 0, bi)
    case Compound(s) =>
      assert StructPackable(pc, s);
      Hash(UnpackedDecls(pc, b, pos, Tagged(order, s.order), s.decls, map[]))
    case Enum(sizes, signed, tag) => UnpackedInt(pc, b, pos, EnumLeaf(pc, sizes, signed, bi), Tagged(order, tag))
    case Basic(flags) => UnpackedInt(pc, b, pos, BasicLeaf(pc, flags, bi), order)
  }

  /** The hash h with the members of the declarations added. */
  function UnpackedDecls(pc: PackConfig, b: seq<byte>, pos: nat, order: ByteOrder, decls: seq<StructDecl>,
                         h: map<string, Datum>): map<string, Datum>
    requires forall sd | sd in decls :: SdPackable(pc, sd)
    decreases decls
  {
    if decls == [] then h
    else UnpackedDecl(pc, b, pos, order, decls[|decls| - 1], UnpackedDecls(pc, b, pos, order, decls[..|decls| - 1], h))
  }

  function UnpackedDecl(pc: PackConfig, b: seq<byte>, pos: nat, order: ByteOrder, sd: StructDecl,
                        h: map<string, Datum>): map<string, Datum>
    requires SdPackable(pc, sd)
    decreases sd
  {
    if sd.declarators == [] then UnpackedUnnamed(pc, b, pos + sd.offset, order, sd.typ, h)
    else UnpackedMembers(pc, b, pos, order, sd.typ, sd.declarators, h)
  }

  function UnpackedMembers(pc: PackConfig, b: seq<byte>, pos: nat, order: ByteOrder, t: TypeSpec, ds: seq<Declarator>,
                           h: map<string, Datum>): map<string, Datum>
    requires MembersPackable(pc, t, ds)
    decreases t, 3, |ds|
  {
    if ds == [] then h
    else UnpackedMember(pc, b, pos, order, t, ds[|ds| - 1], UnpackedMembers(pc, b, pos, order, t, ds[..|ds| - 1], h))
  }

  /** A name that is there already keeps its value. */
  function UnpackedMember(pc: PackConfig, b: seq<byte>, pos: nat, order: ByteOrder, t: TypeSpec, d: Declarator,
                          h: map<string, Datum>): map<string, Datum>
    requires d.name != [] ==> d.offset >= 0 && MemberPackable(pc, t, d)
    decreases t, 2
  {
    if d.name == [] || d.name in h then h
    else h[d.name := UnpackedType(pc, b, pos + d.offset, order, t, d, 0, BitsOf(d))]
  }

  function UnpackedUnnamed(pc: PackConfig, b: seq<byte>, pos: nat, order: ByteOrder, t: TypeSpec,
                           h: map<string, Datum>): map<string, Datum>
    requires UnnamedPackable(pc, t)
    decreases t, 2
  {
    match t
    case Compound(s) =>
      assert StructPackable(pc, s);
      UnpackedDecls(pc, b, pos, order, s.decls, h)
    case TypeRef(td) => UnpackedUnnamed(pc, b, pos, order, td.typ, h)
    case _ => h
  }

  // ----- The pack handle -----

  class PackInfo {
    const pc: PackConfig
    var buf: seq<byte>
    var pos: nat
    var order: ByteOrder

    constructor (pc: PackConfig, buf: seq<byte>)
      ensures this.pc == pc && this.buf == buf && pos == 0 && order == pc.cfg.lp.order
    {
      this.pc, this.buf, this.pos, this.order := pc, buf, 0, pc.cfg.lp.order;
    }

    /** `SET_BYTEORDER`. */
    method SetByteOrder(tag: Option<ByteOrder>)
      modifies this`order
      ensures order == Tagged(old(order), tag)
    {
      if tag.Some? {
        order := tag.value;
      }
    }

    /** `GROW_BUFFER`. */
    method GrowBuffer(size: nat)
      modifies this`buf
      ensures buf == Grown(old(buf), pos + size)
    {
      var required := pos + size;
      if required > |buf| {
        buf := buf + Zeros(required - |buf|);
      }
    }

    /** Grow, and store if there is a value: pointers, enums and basic types. */
    method PackInt(l: Leaf, v: Datum)
      requires LeafOk(pc.word, l)
      modifies this`buf
      ensures buf == PackedInt(pc, old(buf), pos, l, order, v)
    {
      GrowBuffer(l.size);
      if v.Num? {
        var o := if l.bits > 0 then pc.cfg.lp.order else order;
        var container := buf[pos..pos + l.size];
        buf := Patched(buf, pos, StoreBytes(pc.word, container, l.bits, l.shift, o, PatternOf(pc.word, v.value)));
        assert buf == WriteLeaf(pc.word, old(buf), pos, l, o, PatternOf(pc.word, v.value));
      }
    }

    /** The loops that multiply an item's size by the dimensions from the last one down to `from`. */
    method SizeOf(d: Declarator, from: nat) returns (size: nat)
      requires d.ext.Array? && d.itemSize > 0 && from <= |d.ext.dims|
      ensures size == d.itemSize * Product(d.ext.dims[from..])
    {
      size := d.itemSize;
      var dim := |d.ext.dims|;
      while dim > from
        invariant from <= dim <= |d.ext.dims| && size == d.itemSize * Product(d.ext.dims[dim..])
      {
        dim := dim - 1;
        SizeStep(d.itemSize, d.ext.dims, dim);
        size := size * d.ext.dims[dim];
      }
    }

    lemma {:induction false} SizeStep(item: nat, dims: seq<nat>, dim: nat)
      requires dim < |dims|
      ensures item * Product(dims[dim + 1..]) * dims[dim] == item * Product(dims[dim..])
    {
      assert dims[dim..][1..] == dims[dim + 1..];
      Factors(item, Product(dims[dim + 1..]), dims[dim]);
    }

    lemma {:induction false} Factors(a: int, b: int, c: int)
      ensures a * b * c == a * (c * b)
    {
    }

    method PackType(t: TypeSpec, d: Declarator, dim: nat, bi: Option<BitInfo>, v: Datum)
      requires DeclPackable(pc, t, d, bi)
      modifies this
      ensures buf == PackedType(pc, old(buf), old(pos), old(order), t, d, dim, bi, v) && order == old(order)
      decreases t, 1, 2 * (|Dims(d)| - dim) + 1, 0
    {
      var oldOrder := order;
      if dim == 0 {
        SetByteOrder(d.order);
      }
      if d.ext.Array? && dim < |d.ext.dims| {
        if v.Arr? {
          PackItems(t, d, dim, v.items);
        } else {
          var size := SizeOf(d, dim);
          GrowBuffer(size);
        }
      } else if d.pointer {
        PackInt(PointerLeaf(pc), v);
      } else {
        PackItem(t, bi, v);
      }
      order := oldOrder;
    }

    method PackItems(t: TypeSpec, d: Declarator, dim: nat, items: seq<Datum>)
      requires d.ext.Array? && dim < |d.ext.dims| && DeclPackable(pc, t, d, None)
      modifies this
      ensures buf == PackedItems(pc, old(buf), old(pos), old(order), t, d, dim, items, d.ext.dims[dim])
      ensures order == old(order)
      decreases t, 1, 2 * (|Dims(d)| - dim), d.ext.dims[dim]
    {
      var start := pos;
      var size := SizeOf(d, dim + 1);
      var i := 0;
      while i < d.ext.dims[dim]
        invariant i <= d.ext.dims[dim] && order == old(order)
        invariant buf == PackedItems(pc, old(buf), start, order, t, d, dim, items, i)
      {
        if i < |items| {
          pos := start + i * size;
          ElementIs(start, i, size);
          PackType(t, d, dim + 1, None, items[i]);
        }
        i := i + 1;
      }
    }

    method PackItem(t: TypeSpec, bi: Option<BitInfo>, v: Datum)
      requires Packable(pc, t, bi)
      modifies this
      ensures buf == PackedItem(pc, old(buf), old(pos), old(order), t, bi, v) && order == old(order)
      decreases t, 0
    {
      match t {
        case TypeRef(td) => PackType(td.typ, td.decl, 0, bi, v);
        case Compound(s) => PackStruct(s, v, false);
        case Enum(sizes, signed, tag) =>
          var oldOrder := order;
          SetByteOrder(tag);
          PackInt(EnumLeaf(pc, sizes, signed, bi), v);
          order := oldOrder;
        case Basic(flags) => PackInt(BasicLeaf(pc, flags, bi), v);
      }
    }

    /** Unnamed members are packed inlined: their tags are skipped. */
    method PackStruct(s: Struct, v: Datum, inlined: bool)
      requires StructPackable(pc, s)
      modifies this
      ensures order == old(order)
      ensures buf == PackedStruct(pc, old(buf), old(pos), if inlined then order else Tagged(order, s.order), s, v)
      decreases s
    {
      var oldOrder := order;
      if !inlined {
        SetByteOrder(s.order);
      }
      var start := pos;
      if v.Hash? {
        var k := 0;
        while k < |s.decls|
          invariant k <= |s.decls| && order == if inlined then oldOrder else Tagged(oldOrder, s.order)
          invariant buf == PackedDecls(pc, old(buf), start, order, s.decls[..k], v.members)
        {
          assert s.decls[..k + 1][..k] == s.decls[..k];
          pos := start;
          PackDecl(s.decls[k], v);
          k := k + 1;
        }
        assert s.decls[..k] == s.decls;
      }
      order := oldOrder;
    }

    method PackDecl(sd: StructDecl, v: Datum)
      requires SdPackable(pc, sd) && v.Hash?
      modifies this
      ensures buf == PackedDecl(pc, old(buf), old(pos), old(order), sd, v.members) && order == old(order)
      decreases sd
    {
      var start := pos;
      if sd.declarators == [] {
        pos := start + sd.offset;
        PackUnnamed(sd.typ, v);
        return;
      }
      var ds, k := sd.declarators, 0;
      while k < |ds|
        invariant k <= |ds| && order == old(order)
        invariant buf == PackedMembers(pc, old(buf), start, order, sd.typ, ds[..k], v.members)
      {
        assert ds[..k + 1][..k] == ds[..k];
        var d := ds[k];
        if d.name != [] && d.name in v.members {
          pos := start + d.offset;
          PackType(sd.typ, d, 0, BitsOf(d), v.members[d.name]);
        }
        k := k + 1;
      }
      assert ds[..k] == ds;
    }

    method PackUnnamed(t: TypeSpec, v: Datum)
      requires UnnamedPackable(pc, t) && v.Hash?
      modifies this
      ensures buf == PackedUnnamed(pc, old(buf), old(pos), old(order), t, v.members) && order == old(order)
      decreases t, 2
    {
      match t {
        case Compound(s) => PackStruct(s, v, true);
        case TypeRef(td) => PackUnnamed(td.typ, v);
        case _ =>
      }
    }

    /** `CHECK_BUFFER` and fetch: pointers and basic types. */
    method UnpackInt(l: Leaf) returns (v: Datum)
      requires LeafOk(pc.word, l)
      modifies this`pos
      ensures v == UnpackedInt(pc, buf, old(pos), l, order)
    {
      if pos + l.size > |buf| {
        pos := |buf|;
        return Undef;
      }
      var o := if l.bits > 0 then pc.cfg.lp.order else order;
      v := Num(ValueOf(pc.word, ReadLeaf(pc.word, buf, pos, l, o), l.sign));
    }

    /** On a short buffer this returns before it restores the byte order; its caller does that. */
    method UnpackEnum(sizes: seq<nat>, signed: bool, tag: Option<ByteOrder>, bi: Option<BitInfo>) returns (v: Datum)
      requires Packable(pc, Enum(sizes, signed, tag), bi)
      modifies this`pos, this`order
      ensures v == UnpackedInt(pc, buf, old(pos), EnumLeaf(pc, sizes, signed, bi), Tagged(old(order), tag))
      ensures order ==
        if old(pos) + EnumLeaf(pc, sizes, signed, bi).size > |buf| then Tagged(old(order), tag) else old(order)
    {
      var oldOrder := order;
      var l := EnumLeaf(pc, sizes, signed, bi);
      SetByteOrder(tag);
      if pos + l.size > |buf| {
        pos := |buf|;
        return Undef;
      }
      var o := if l.bits > 0 then pc.cfg.lp.order else order;
      v := Num(ValueOf(pc.word, ReadLeaf(pc.word, buf, pos, l, o), l.sign));
      order := oldOrder;
    }

    method UnpackType(t: TypeSpec, d: Declarator, dim: nat, bi: Option<BitInfo>) returns (v: Datum)
      requires DeclPackable(pc, t, d, bi)
      modifies this`pos, this`order
      ensures v == UnpackedType(pc, buf, old(pos), old(order), t, d, dim, bi) && order == old(order)
      decreases t, 1, 2 * (|Dims(d)| - dim) + 1, 0
    {
      var oldOrder := order;
      if dim == 0 {
        SetByteOrder(d.order);
      }
      if d.ext.Array? && dim < |d.ext.dims| {
        var items := UnpackItems(t, d, dim);
        v := Arr(items);
      } else if d.pointer {
        v := UnpackInt(PointerLeaf(pc));
      } else {
        v := UnpackItem(t, bi);
      }
      order := oldOrder;
    }

    method UnpackItems(t: TypeSpec, d: Declarator, dim: nat) returns (items: seq<Datum>)
      requires d.ext.Array? && dim < |d.ext.dims| && DeclPackable(pc, t, d, None)
      modifies this`pos, this`order
      ensures items == UnpackedItems(pc, buf, old(pos), old(order), t, d, dim, d.ext.dims[dim]) && order == old(order)
      decreases t, 1, 2 * (|Dims(d)| - dim), d.ext.dims[dim]
    {
      var start := pos;
      var size := SizeOf(d, dim + 1);
      var i := 0;
      items := [];
      while i < d.ext.dims[dim]
        invariant i <= d.ext.dims[dim] && order == old(order)
        invariant items == UnpackedItems(pc, buf, start, order, t, d, dim, i)
      {
        pos := start + i * size;
        ElementIs(start, i, size);
        var v := UnpackType(t, d, dim + 1, None);
        items := items + [v];
        i := i + 1;
      }
    }

    /** The order may be left changed by an enum in a short buffer. */
    method UnpackItem(t: TypeSpec, bi: Option<BitInfo>) returns (v: Datum)
      requires Packable(pc, t, bi)
      modifies this`pos, this`order
      ensures v == UnpackedItem(pc, buf, old(pos), old(order), t, bi)
      ensures !t.Enum? ==> order == old(order)
      decreases t, 0
    {
      match t {
        case TypeRef(td) => v := UnpackType(td.typ, td.decl, 0, bi);
        case Compound(s) =>
          var h := UnpackStruct(s, map[], false);
          v := Hash(h);
        case Enum(sizes, signed, tag) => v := UnpackEnum(sizes, signed, tag, bi);
        case Basic(flags) => v := UnpackInt(BasicLeaf(pc, flags, bi));
      }
    }

    /** Unnamed members go into the hash that is already there. */
    method UnpackStruct(s: Struct, hash: map<string, Datum>, inlined: bool) returns (h: map<string, Datum>)
      requires StructPackable(pc, s)
      modifies this`pos, this`order
      ensures order == old(order)
      ensures h == UnpackedDecls(pc, buf, old(pos), if inlined then order else Tagged(order, s.order), s.decls, hash)
      decreases s
    {
      var oldOrder := order;
      if !inlined {
        SetByteOrder(s.order);
      }
      var start, k := pos, 0;
      h := hash;
      while k < |s.decls|
        invariant k <= |s.decls| && order == if inlined then oldOrder else Tagged(oldOrder, s.order)
        invariant h == UnpackedDecls(pc, buf, start, order, s.decls[..k], hash)
      {
        assert s.decls[..k + 1][..k] == s.decls[..k];
        pos := start;
        h := UnpackDecl(s.decls[k], h);
        k := k + 1;
      }
      assert s.decls[..k] == s.decls;
      order := oldOrder;
    }

    method UnpackDecl(sd: StructDecl, hash: map<string, Datum>) returns (h: map<string, Datum>)
      requires SdPackable(pc, sd)
      modifies this`pos, this`order
      ensures h == UnpackedDecl(pc, buf, old(pos), old(order), sd, hash) && order == old(order)
      decreases sd
    {
      var start := pos;
      if sd.declarators == [] {
        pos := start + sd.offset;
        h := UnpackUnnamed(sd.typ, hash);
        return;
      }
      var ds, k := sd.declarators, 0;
      h := hash;
      while k < |ds|
        invariant k <= |ds| && order == old(order)
        invariant h == UnpackedMembers(pc, buf, start, order, sd.typ, ds[..k], hash)
      {
        assert ds[..k + 1][..k] == ds[..k];
        var d := ds[k];
        if d.name != [] && d.name !in h {
          pos := start + d.offset;
          var v := UnpackType(sd.typ, d, 0, BitsOf(d));
          h := h[d.name := v];
        }
        k := k + 1;
      }
      assert ds[..k] == ds;
    }

    method UnpackUnnamed(t: TypeSpec, hash: map<string, Datum>) returns (h: map<string, Datum>)
      requires UnnamedPackable(pc, t)
      modifies this`pos, this`order
      ensures h == UnpackedUnnamed(pc, buf, old(pos), old(order), t, hash) && order == old(order)
      decreases t, 2
    {
      match t {
        case Compound(s) => h := UnpackStruct(s, hash, true);
        case TypeRef(td) => h := UnpackUnnamed(td.typ, hash);
        case _ => h := hash;
      }
    }
  }

  /** Reading a tagged enum of four bytes from an empty buffer leaves its tag's byte order in force. */
  method ShortEnum(pc: PackConfig, tag: ByteOrder) returns (h: PackInfo, v: Datum)
    requires pc.cfg.lp.enumSize == 4 && pc.word >= 32
    ensures fresh(h) && h.buf == [] && v == Undef && h.order == tag
  {
    h := new PackInfo(pc, []);
    v := h.UnpackEnum([], false, Some(tag), None);
  }
}
