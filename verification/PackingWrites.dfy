/**
 What packing does to every integer of a type: each one that is supplied is in its bytes afterwards, modulo
 the width of its field and in the byte order that the tags on the way to it ask for; each one that is not
 supplied has the bits it had.
 */
module PackingWrites {
  import opened Bits
  import opened IntegerMemory
  import opened IntegerBytes
  import opened CTypes
  import opened Bitfields
  import opened BitfieldSafety
  import opened Layout
  import opened LayoutSafety
  import opened PackBuffer
  import opened Packing
  import opened PackingRoundTrip
  import opened PackingMeaning

  // ----- Spots and their bits -----

  function SpotLeaf(x: Spot): Leaf {
    Leaf(x.size, x.bits, x.shift, x.signed)
  }

  ghost function SpotLo(pc: PackConfig, x: Spot): int {
    LeafLo(pc.cfg.lp.order, x.pos, SpotLeaf(x))
  }

  ghost function SpotHi(pc: PackConfig, x: Spot): int {
    LeafHi(pc.cfg.lp.order, x.pos, SpotLeaf(x))
  }

  /** An integer's spot, with its bits from lo to hi. */
  ghost predicate Within(pc: PackConfig, x: Spot, lo: int, hi: int) {
    && LeafOk(pc.word, SpotLeaf(x)) && (x.bits > 0 ==> x.order == pc.cfg.lp.order)
    && lo <= SpotLo(pc, x) && SpotHi(pc, x) <= hi
  }

  /** The field holds v, modulo its width. */
  ghost predicate Stores(r: seq<byte>, x: Spot, v: int) {
    && 0 < x.size && x.pos + x.size <= |r|
    && FieldIn(r[x.pos..x.pos + x.size], x.bits, x.shift, false, x.order)
    == v % Pow2(if x.bits > 0 then x.bits else 8 * x.size)
  }

  /** An integer is stored, and for anything else the bits stay as they are. */
  ghost predicate Effect(pc: PackConfig, b: seq<byte>, r: seq<byte>, x: Spot, v: Option<Datum>) {
    if v.Some? && v.value.Num? then Stores(r, x, v.value.value)
    else SameBits(pc.cfg.lp.order, b, r, SpotLo(pc, x), SpotHi(pc, x))
  }

  lemma {:induction false} StoresKept(pc: PackConfig, a: seq<byte>, r: seq<byte>, x: Spot, v: int)
    requires Within(pc, x, SpotLo(pc, x), SpotHi(pc, x)) && Stores(a, x, v) && |a| <= |r|
    requires SameBits(pc.cfg.lp.order, a, r, SpotLo(pc, x), SpotHi(pc, x))
    ensures Stores(r, x, v)
  {
    SameContents(pc, a, r, x);
  }

  lemma {:induction false} SameContents(pc: PackConfig, a: seq<byte>, r: seq<byte>, x: Spot)
    requires Within(pc, x, SpotLo(pc, x), SpotHi(pc, x)) && x.pos + x.size <= |a| <= |r|
    requires SameBits(pc.cfg.lp.order, a, r, SpotLo(pc, x), SpotHi(pc, x))
    ensures FieldIn(a[x.pos..x.pos + x.size], x.bits, x.shift, false, x.order)
         == FieldIn(r[x.pos..x.pos + x.size], x.bits, x.shift, false, x.order)
  {
    var l := SpotLeaf(x).(sign := false);
    ReadSame(pc.word, pc.cfg.lp.order, a, r, x.pos, l, x.order);
    FetchMeans(pc.word, a[x.pos..x.pos + x.size], false, x.bits, x.shift, x.order);
    FetchMeans(pc.word, r[x.pos..x.pos + x.size], false, x.bits, x.shift, x.order);
  }

  /** What is changed elsewhere later does not matter. */
  lemma {:induction false} EffectAfter(pc: PackConfig, b: seq<byte>, a: seq<byte>, r: seq<byte>, x: Spot,
                                       v: Option<Datum>, lo: int, hi: int, lo': int, hi': int)
    requires Within(pc, x, lo, hi) && Effect(pc, b, a, x, v)
    requires ChangesOnly(pc.cfg.lp.order, a, r, lo', hi') && (hi <= lo' || hi' <= lo)
    ensures Effect(pc, b, r, x, v)
  {
    if v.Some? && v.value.Num? {
      StoresKept(pc, a, r, x, v.value.value);
    }
  }

  /** Nor does what was changed elsewhere before. */
  lemma {:induction false} EffectBefore(pc: PackConfig, b: seq<byte>, a: seq<byte>, r: seq<byte>, x: Spot,
                                        v: Option<Datum>, lo: int, hi: int, lo': int, hi': int)
    requires Within(pc, x, lo, hi) && Effect(pc, a, r, x, v)
    requires ChangesOnly(pc.cfg.lp.order, b, a, lo', hi') && (hi <= lo' || hi' <= lo)
    ensures Effect(pc, b, r, x, v)
  {
  }

  lemma {:induction false} WithinWider(pc: PackConfig, x: Spot, lo: int, hi: int, lo': int, hi': int)
    requires Within(pc, x, lo, hi) && lo' <= lo && hi <= hi'
    ensures Within(pc, x, lo', hi')
  {
  }

  // ----- One integer -----

  ghost function LeafSpot(pc: PackConfig, pos: nat, l: Leaf, order: ByteOrder): Spot {
    Spot(pos, l.size, l.bits, l.shift, l.sign, if l.bits > 0 then pc.cfg.lp.order else order)
  }

  lemma {:induction false} IntWritten(pc: PackConfig, b: seq<byte>, pos: nat, l: Leaf, order: ByteOrder, v: Datum)
    requires LeafOk(pc.word, l)
    ensures Effect(pc, b, PackedInt(pc, b, pos, l, order, v), LeafSpot(pc, pos, l, order), Some(v))
    ensures |PackedInt(pc, b, pos, l, order, v)| == if pos + l.size > |b| then pos + l.size else |b|
  {
    var x, o := LeafSpot(pc, pos, l, order), pc.cfg.lp.order;
    if v.Num? {
      IntStored(pc, b, pos, l, x.order, v.value);
    } else {
      GrowChanges(o, b, pos + l.size, 0, 0);
    }
  }

  lemma {:induction false} IntStored(pc: PackConfig, b: seq<byte>, pos: nat, l: Leaf, o: ByteOrder, v: int)
    requires LeafOk(pc.word, l)
    ensures Stores(WriteLeaf(pc.word, b, pos, l, o, PatternOf(pc.word, v)),
                   Spot(pos, l.size, l.bits, l.shift, l.sign, o), v)
  {
    var n, p, w := pc.word, PatternOf(pc.word, v), Width(l.size, l.bits);
    var r := WriteLeaf(n, b, pos, l, o, p);
    Written(n, b, pos, l, o, p);
    FetchAfterStore(n, Grown(b, pos + l.size)[pos..pos + l.size], false, l.bits, l.shift, o, p);
    FetchMeans(n, r[pos..pos + l.size], false, l.bits, l.shift, o);
    PatternMod(v, n, w);
  }

  /** A pattern's low bits are the integer's. */
  lemma PatternMod(v: int, n: nat, w: nat)
    requires w <= n
    ensures PatternOf(n, v) % Pow2(w) == v % Pow2(w)
  {
    Pow2Add(w, n - w);
    ModFactor(v, Pow2(w), Pow2(n - w));
  }

  /** A spot of its own starts with its field's bytes: digit k of the integer is the byte of significance k. */
  lemma {:induction false} StoredDigits(r: seq<byte>, x: Spot, v: int, k: nat)
    requires Stores(r, x, v) && x.bits == 0 && k < x.size
    ensures r[x.pos + if x.order == LittleEndian then k else x.size - 1 - k] == (v / Pow2(8 * k)) % 256
  {
    var bytes := r[x.pos..x.pos + x.size];
    DigitsOfValue(bytes, false, x.order, k);
    LowDigit(v, 8 * k, 8 * x.size);
  }

  lemma LowDigit(v: int, k: nat, w: nat)
    requires k + 8 <= w
    ensures ((v % Pow2(w)) / Pow2(k)) % 256 == (v / Pow2(k)) % 256
  {
    PowerParts(w - k - 8, k);
    DivMod(v, Pow2(w));
    Taken(v, v / Pow2(w), Pow2(k), Pow2(w - k - 8));
  }

  lemma Taken(v: int, q: int, p: int, top: int)
    requires p > 0
    ensures ((v - q * (top * (256 * p))) / p) % 256 == (v / p) % 256
  {
    TakenParts(q, top, p);
    Borrowed(v, p, q * top);
  }

  lemma TakenParts(q: int, top: int, p: int)
    ensures q * (top * (256 * p)) == (q * top) * (256 * p)
  {
  }

  // ----- Spots are inside what they are part of -----

  lemma {:induction false} TypeWithin(pc: PackConfig, pos: nat, order: ByteOrder, t: TypeSpec, d: Declarator, dim: nat,
                                      bi: Option<BitInfo>, path: Path)
    requires Usable(pc.cfg) && Ready(pc, t, d, bi) && BitsOk(bi) && dim <= |Dims(d)|
    requires TypeSpot(pc, pos, order, t, d, dim, bi, path).Some?
    ensures Within(pc, TypeSpot(pc, pos, order, t, d, dim, bi, path).value, SpanLo(pc, pos, bi),
                   SpanHi(pc, pos, bi, Left(pc, t, d, dim)))
    decreases t, 1, |Dims(d)| - dim
  {
    var o := if dim == 0 && d.order.Some? then d.order.value else order;
    LeftIs(pc, t, d, dim);
    if dim < |Dims(d)| {
      var k, stride := path[0].index, Left(pc, t, d, dim + 1);
      var at := StartOf(d, dim, pos, k);
      StrideIs(pc, t, d, dim);
      TypeWithin(pc, at, o, t, d, dim + 1, None, path[1..]);
      assert pos <= at && at + stride <= pos + Left(pc, t, d, dim) by {
        Inside(k, d.ext.dims[dim], stride);
      }
      WithinWider(pc, TypeSpot(pc, pos, order, t, d, dim, bi, path).value, 8 * at, 8 * (at + stride),
                  SpanLo(pc, pos, bi), SpanHi(pc, pos, bi, Left(pc, t, d, dim)));
    } else if !d.pointer {
      ItemWithin(pc, pos, o, t, bi, path);
    }
  }

  lemma Inside(k: int, n: int, stride: int)
    requires 0 <= k < n && stride >= 0
    ensures 0 <= k * stride && k * stride + stride <= n * stride
  {
    MulLe(0, k, stride);
    MulLe(k + 1, n, stride);
  }

  lemma {:induction false} ItemWithin(pc: PackConfig, pos: nat, order: ByteOrder, t: TypeSpec, bi: Option<BitInfo>,
                                      path: Path)
    requires Usable(pc.cfg) && LaidOut(pc.cfg, t) && Packable(pc, t, bi) && Simply(t) && BitsOk(bi)
    requires ItemSpot(pc, pos, order, t, bi, path).Some?
    ensures Within(pc, ItemSpot(pc, pos, order, t, bi, path).value, SpanLo(pc, pos, bi),
                   SpanHi(pc, pos, bi, ItemInfo(pc.cfg.lp, t, false).item))
    decreases t, 0
  {
    match t
    case TypeRef(td) =>
      TypedefReady(pc, td, bi);
      TypeWithin(pc, pos, order, td.typ, td.decl, 0, bi, path);
    case Compound(s) =>
      assert StructPackable(pc, s);
      StructWithin(pc, pos, if s.order.Some? then s.order.value else order, s, path);
    case _ => LeafWithin(pc, pos, order, t, bi, path);
  }

  lemma {:induction false} LeafWithin(pc: PackConfig, pos: nat, order: ByteOrder, t: TypeSpec, bi: Option<BitInfo>,
                                      path: Path)
    requires Sized(pc.cfg.lp, t) && Packable(pc, t, bi) && Simply(t) && BitsOk(bi) && (t.Basic? || t.Enum?)
    requires ItemSpot(pc, pos, order, t, bi, path).Some?
    ensures path == [] && ItemSpot(pc, pos, order, t, bi, path).value
         == LeafSpot(pc, pos, LeafOf(pc, t, bi), LeafTag(t, order))
    ensures Within(pc, ItemSpot(pc, pos, order, t, bi, path).value, SpanLo(pc, pos, bi),
                   SpanHi(pc, pos, bi, ItemInfo(pc.cfg.lp, t, false).item))
  {
    LeafCovers(pc, t, bi);
  }

  lemma {:induction false} StructWithin(pc: PackConfig, pos: nat, order: ByteOrder, s: Struct, path: Path)
    requires Usable(pc.cfg) && StructLaidOut(pc.cfg, s) && StructPackable(pc, s) && Simply(Compound(s))
    requires StructSpot(pc, pos, order, s.decls, path).Some?
    ensures Within(pc, StructSpot(pc, pos, order, s.decls, path).value, 8 * pos, 8 * (pos + s.size))
    decreases s, 0
  {
    var c, p := ContextOf(pc.cfg, s), Layout.Start(pc.cfg, s);
    StructSpan(pc, s, pos);
    DeclsWithin(pc, c, p, pos, order, s.decls, path);
    WithinWider(pc, StructSpot(pc, pos, order, s.decls, path).value, Edge(pos, p),
                Edge(pos, PlaceDecls(c, p, s.decls).0), 8 * pos, 8 * (pos + s.size));
  }

  lemma {:induction false} DeclsWithin(pc: PackConfig, c: Context, p: Progress, pos: nat, order: ByteOrder,
                                       decls: seq<StructDecl>, path: Path)
    requires Usable(pc.cfg) && Members(pc, c, p, decls) && StructSpot(pc, pos, order, decls, path).Some?
    ensures Within(pc, StructSpot(pc, pos, order, decls, path).value, Edge(pos, p),
                   Edge(pos, PlaceDecls(c, p, decls).0))
    decreases decls
  {
    var first, sd := decls[..|decls| - 1], decls[|decls| - 1];
    var q, x := PlaceDecls(c, p, first).0, StructSpot(pc, pos, order, decls, path).value;
    var lo, mid, hi := Edge(pos, p), Edge(pos, q), Edge(pos, PlaceDecls(c, p, decls).0);
    SplitStruct(pc, c, p, decls);
    DeclsEdges(pc, c, p, pos, decls);
    StructSpotParts(pc, pos, order, decls, path);
    if path[0].decl < |first| {
      DeclsWithin(pc, c, p, pos, order, first, path);
      WithinWider(pc, x, lo, mid, lo, hi);
    } else {
      DeclWithin(pc, c, q, pos, order, sd, path);
      WithinWider(pc, x, mid, hi, lo, hi);
    }
  }

  lemma {:induction false} DeclsEdges(pc: PackConfig, c: Context, p: Progress, pos: nat, decls: seq<StructDecl>)
    requires Usable(pc.cfg) && Members(pc, c, p, decls) && decls != []
    ensures Edge(pos, p) <= Edge(pos, PlaceDecls(c, p, decls[..|decls| - 1]).0) <= Edge(pos, PlaceDecls(c, p, decls).0)
  {
    SplitStruct(pc, c, p, decls);
    DeclsChange(pc, c, p, [], pos, LittleEndian, decls[..|decls| - 1], map[]);
    DeclChanges(pc, c, PlaceDecls(c, p, decls[..|decls| - 1]).0, [], pos, LittleEndian, decls[|decls| - 1], map[]);
  }

  /** A path goes through the last declaration or one before it. */
  lemma {:induction false} StructSpotParts(pc: PackConfig, pos: nat, order: ByteOrder, decls: seq<StructDecl>,
                                           path: Path)
    requires (forall sd | sd in decls :: SdPackable(pc, sd)) && StructSpot(pc, pos, order, decls, path).Some?
    ensures path != [] && !path[0].Item? && path[0].decl < |decls| && SdPackable(pc, decls[|decls| - 1])
    ensures StructSpot(pc, pos, order, decls, path) ==
      if path[0].decl < |decls| - 1 then StructSpot(pc, pos, order, decls[..|decls| - 1], path)
      else DeclSpot(pc, pos, order, decls[|decls| - 1], path)
  {
    if path[0].decl < |decls| - 1 {
      assert decls[..|decls| - 1][path[0].decl] == decls[path[0].decl];
    }
  }

  /** What a path leads to from one declaration. */
  ghost function DeclSpot(pc: PackConfig, pos: nat, order: ByteOrder, sd: StructDecl, path: Path): Option<Spot>
    requires SdPackable(pc, sd)
    decreases sd
  {
    if path == [] then None
    else
      match path[0]
      case Item(_) => None
      case Member(_, j) =>
        if j < |sd.declarators| then
          assert sd.declarators[j] in sd.declarators;
          MemberSpot(pc, pos, order, sd.typ, sd.declarators[j], path[1..])
        else None
      case Unnamed(_) =>
        if sd.declarators == [] then UnnamedSpot(pc, pos + sd.offset, order, sd.typ, path[1..]) else None
  }

  lemma {:induction false} DeclWithin(pc: PackConfig, c: Context, p: Progress, pos: nat, order: ByteOrder,
                                      sd: StructDecl, path: Path)
    requires Usable(pc.cfg) && OneDecl(pc, c, p, sd) && DeclSpot(pc, pos, order, sd, path).Some?
    ensures Within(pc, DeclSpot(pc, pos, order, sd, path).value, Edge(pos, p), Edge(pos, PlaceDecl(c, p, sd).0))
    decreases sd
  {
    if sd.declarators == [] {
      UnnamedSpan(pc, c, p, sd, pos);
      UnnamedWithin(pc, pos + sd.offset, order, sd.typ, path[1..]);
    } else {
      DeclaratorsOf(pc, c, p, sd);
      MembersWithin(pc, c, p, pos, order, sd.typ, sd.declarators, path[0].declarator, path[1..]);
    }
  }

  lemma {:induction false} MembersWithin(pc: PackConfig, c: Context, p: Progress, pos: nat, order: ByteOrder,
                                         t: TypeSpec, ds: seq<Declarator>, j: nat, path: Path)
    requires Usable(pc.cfg) && Declarators(pc, c, p, t, ds) && j < |ds| && ds[j] in ds
    requires MemberSpot(pc, pos, order, t, ds[j], path).Some?
    ensures Within(pc, MemberSpot(pc, pos, order, t, ds[j], path).value, Edge(pos, p),
                   Edge(pos, PlaceDeclarators(c, p, t, ds).p))
    decreases t, 3, |ds|
  {
    var first, d := ds[..|ds| - 1], ds[|ds| - 1];
    var q, x := PlaceDeclarators(c, p, t, first), MemberSpot(pc, pos, order, t, ds[j], path).value;
    var lo, mid, hi := Edge(pos, p), Edge(pos, q.p), Edge(pos, PlaceDeclarators(c, p, t, ds).p);
    FirstMembers(pc, c, p, t, ds);
    LastMember(pc, c, p, t, ds);
    MembersEdges(pc, c, p, pos, t, ds);
    if j < |first| {
      assert first[j] == ds[j] && ds[j] in first;
      MembersWithin(pc, c, p, pos, order, t, first, j, path);
      WithinWider(pc, x, lo, mid, lo, hi);
    } else {
      MemberWithin(pc, c, q, pos, order, t, d, path);
      WithinWider(pc, x, mid, hi, lo, hi);
    }
  }

  lemma {:induction false} MembersEdges(pc: PackConfig, c: Context, p: Progress, pos: nat, t: TypeSpec,
                                        ds: seq<Declarator>)
    requires Usable(pc.cfg) && Declarators(pc, c, p, t, ds) && ds != [] && Declarators(pc, c, p, t, ds[..|ds| - 1])
    ensures var mid := Edge(pos, PlaceDeclarators(c, p, t, ds[..|ds| - 1]).p);
      Edge(pos, p) <= mid <= Edge(pos, PlaceDeclarators(c, p, t, ds).p)
  {
    LastMember(pc, c, p, t, ds);
    MemberSpan(pc, c, PlaceDeclarators(c, p, t, ds[..|ds| - 1]), t, ds[|ds| - 1], pos);
    MembersChange(pc, c, p, [], pos, LittleEndian, t, ds[..|ds| - 1], map[]);
  }

  lemma {:induction false} MemberWithin(pc: PackConfig, c: Context, r: Placed, pos: nat, order: ByteOrder, t: TypeSpec,
                                        d: Declarator, path: Path)
    requires Usable(pc.cfg) && OneMember(pc, c, r, t, d) && MemberSpot(pc, pos, order, t, d, path).Some?
    ensures Within(pc, MemberSpot(pc, pos, order, t, d, path).value, Edge(pos, r.p),
                   Edge(pos, PlaceDeclarator(c, r, t, d).p))
    decreases t, 2
  {
    MemberSpan(pc, c, r, t, d, pos);
    TypeWithin(pc, pos + d.offset, order, t, d, 0, BitsOf(d), path);
    WithinWider(pc, MemberSpot(pc, pos, order, t, d, path).value, SpanLo(pc, pos + d.offset, BitsOf(d)),
                SpanHi(pc, pos + d.offset, BitsOf(d), Left(pc, t, d, 0)), Edge(pos, r.p),
                Edge(pos, PlaceDeclarator(c, r, t, d).p));
  }

  lemma {:induction false} UnnamedWithin(pc: PackConfig, pos: nat, order: ByteOrder, t: TypeSpec, path: Path)
    requires Usable(pc.cfg) && LaidOut(pc.cfg, t) && UnnamedPackable(pc, t) && Simply(t)
    requires UnnamedSpot(pc, pos, order, t, path).Some?
    ensures Within(pc, UnnamedSpot(pc, pos, order, t, path).value, 8 * pos,
                   8 * (pos + ItemInfo(pc.cfg.lp, t, false).item))
    decreases t, 2
  {
    match t
    case Compound(s) => StructWithin(pc, pos, order, s, path);
    case TypeRef(td) =>
      UnnamedItem(pc, td);
      UnnamedWithin(pc, pos, order, td.typ, path);
    case _ =>
  }

  // ----- What packing does -----

  /** Whatever is packed, whatever the buffer held before: every integer that is supplied is stored at its spot,
      and the bits of every one that is not stay as they were. */
  lemma {:induction false} TypeWritten(pc: PackConfig, b: seq<byte>, pos: nat, order: ByteOrder, t: TypeSpec,
                                       d: Declarator, dim: nat, bi: Option<BitInfo>, v: Datum, path: Path)
    requires Usable(pc.cfg) && Ready(pc, t, d, bi) && BitsOk(bi) && dim <= |Dims(d)|
    requires TypeSpot(pc, pos, order, t, d, dim, bi, path).Some?
    ensures Effect(pc, b, PackedType(pc, b, pos, order, t, d, dim, bi, v),
                   TypeSpot(pc, pos, order, t, d, dim, bi, path).value, DatumAt(t, d, dim, v, path))
    decreases t, 1, 2 * (|Dims(d)| - dim) + 1, 0
  {
    var o := if dim == 0 && d.order.Some? then d.order.value else order;
    if dim < |Dims(d)| {
      ArrayWritten(pc, b, pos, order, t, d, dim, bi, v, path);
    } else if d.pointer {
      PointerWritten(pc, b, pos, order, t, d, dim, v, path);
    } else {
      ItemWritten(pc, b, pos, o, t, bi, v, path);
    }
  }

  lemma {:induction false} PointerWritten(pc: PackConfig, b: seq<byte>, pos: nat, order: ByteOrder, t: TypeSpec,
                                          d: Declarator, dim: nat, v: Datum, path: Path)
    requires DeclPackable(pc, t, d, None) && d.pointer && dim == |Dims(d)|
    requires TypeSpot(pc, pos, order, t, d, dim, None, path).Some?
    ensures Effect(pc, b, PackedType(pc, b, pos, order, t, d, dim, None, v),
                   TypeSpot(pc, pos, order, t, d, dim, None, path).value, DatumAt(t, d, dim, v, path))
  {
    var o := if dim == 0 && d.order.Some? then d.order.value else order;
    IntWritten(pc, b, pos, PointerLeaf(pc), o, v);
  }

  lemma {:induction false} ArrayWritten(pc: PackConfig, b: seq<byte>, pos: nat, order: ByteOrder, t: TypeSpec,
                                        d: Declarator, dim: nat, bi: Option<BitInfo>, v: Datum, path: Path)
    requires Usable(pc.cfg) && Ready(pc, t, d, bi) && BitsOk(bi) && dim < |Dims(d)|
    requires TypeSpot(pc, pos, order, t, d, dim, bi, path).Some?
    ensures Effect(pc, b, PackedType(pc, b, pos, order, t, d, dim, bi, v),
                   TypeSpot(pc, pos, order, t, d, dim, bi, path).value, DatumAt(t, d, dim, v, path))
    decreases t, 1, 2 * (|Dims(d)| - dim), d.ext.dims[dim] + 1
  {
    var o := if dim == 0 && d.order.Some? then d.order.value else order;
    if v.Arr? {
      ItemsWritten(pc, b, pos, o, t, d, dim, v.items, d.ext.dims[dim], path);
    } else {
      GrowChanges(pc.cfg.lp.order, b, pos + d.itemSize * Product(d.ext.dims[dim..]), 0, 0);
    }
  }

  /** What a path leads to from an array. */
  ghost function ElementSpot(pc: PackConfig, pos: nat, order: ByteOrder, t: TypeSpec, d: Declarator, dim: nat,
                             k: nat, path: Path): Option<Spot>
    requires DeclPackable(pc, t, d, None) && dim < |Dims(d)|
  {
    TypeSpot(pc, StartOf(d, dim, pos, k), order, t, d, dim + 1, None, path)
  }

  lemma {:induction false} ItemsWritten(pc: PackConfig, b: seq<byte>, pos: nat, order: ByteOrder, t: TypeSpec,
                                        d: Declarator, dim: nat, items: seq<Datum>, n: nat, path: Path)
    requires Usable(pc.cfg) && Ready(pc, t, d, None) && dim < |Dims(d)|
    requires path != [] && path[0].Item? && path[0].index < n
    requires ElementSpot(pc, pos, order, t, d, dim, path[0].index, path[1..]).Some?
    ensures Effect(pc, b, PackedItems(pc, b, pos, order, t, d, dim, items, n),
                   ElementSpot(pc, pos, order, t, d, dim, path[0].index, path[1..]).value,
                   if path[0].index < |items| then DatumAt(t, d, dim + 1, items[path[0].index], path[1..]) else None)
    decreases t, 1, 2 * (|Dims(d)| - dim), n
  {
    var k := path[0].index;
    if k < n - 1 {
      ItemsWritten(pc, b, pos, order, t, d, dim, items, n - 1, path);
      LaterItem(pc, b, pos, order, t, d, dim, items, n, k, path[1..]);
    } else {
      ThisItem(pc, b, pos, order, t, d, dim, items, k, path[1..]);
    }
  }

  /** The bytes of an element. */
  lemma {:induction false} ElementWithin(pc: PackConfig, pos: nat, order: ByteOrder, t: TypeSpec, d: Declarator,
                                         dim: nat, k: nat, path: Path)
    requires Usable(pc.cfg) && Ready(pc, t, d, None) && dim < |Dims(d)|
    requires ElementSpot(pc, pos, order, t, d, dim, k, path).Some?
    ensures var from := Element(pos, k, Stride(d, dim));
      Within(pc, ElementSpot(pc, pos, order, t, d, dim, k, path).value, 8 * from, 8 * (from + Stride(d, dim)))
    decreases t, 1, |Dims(d)| - dim
  {
    StrideIs(pc, t, d, dim);
    ElementIs(pos, k, Stride(d, dim));
    TypeWithin(pc, pos + k * Stride(d, dim), order, t, d, dim + 1, None, path);
  }

  lemma {:induction false} ElementsApart(pos: nat, k: nat, n: nat, stride: nat)
    requires k < n
    ensures pos <= Element(pos, k, stride) && Element(pos, k, stride) + stride <= Element(pos, n, stride)
  {
    ElementIs(pos, k, stride);
    ElementIs(pos, n, stride);
    Inside(k, n, stride);
  }

  /** An element that is packed later. */
  lemma {:induction false} LaterItem(pc: PackConfig, b: seq<byte>, pos: nat, order: ByteOrder, t: TypeSpec,
                                     d: Declarator, dim: nat, items: seq<Datum>, n: nat, k: nat, path: Path)
    requires Usable(pc.cfg) && Ready(pc, t, d, None) && dim < |Dims(d)| && k < n - 1
    requires ElementSpot(pc, pos, order, t, d, dim, k, path).Some?
    requires var v := if k < |items| then DatumAt(t, d, dim + 1, items[k], path) else None;
      Effect(pc, b, PackedItems(pc, b, pos, order, t, d, dim, items, n - 1),
             ElementSpot(pc, pos, order, t, d, dim, k, path).value, v)
    ensures var v := if k < |items| then DatumAt(t, d, dim + 1, items[k], path) else None;
      Effect(pc, b, PackedItems(pc, b, pos, order, t, d, dim, items, n),
             ElementSpot(pc, pos, order, t, d, dim, k, path).value, v)
  {
    if n - 1 < |items| {
      var stride, x := Stride(d, dim), ElementSpot(pc, pos, order, t, d, dim, k, path).value;
      var from, at := Element(pos, k, stride), Element(pos, n - 1, stride);
      var a := PackedItems(pc, b, pos, order, t, d, dim, items, n - 1);
      StrideIs(pc, t, d, dim);
      ElementWithin(pc, pos, order, t, d, dim, k, path);
      ElementsApart(pos, k, n - 1, stride);
      TypeChanges(pc, a, at, order, t, d, dim + 1, None, items[n - 1]);
      EffectAfter(pc, b, a, PackedItems(pc, b, pos, order, t, d, dim, items, n), x,
                  if k < |items| then DatumAt(t, d, dim + 1, items[k], path) else None,
                  8 * from, 8 * (from + stride), 8 * at, 8 * (at + stride));
    }
  }

  /** The element itself. */
  lemma {:induction false} ThisItem(pc: PackConfig, b: seq<byte>, pos: nat, order: ByteOrder, t: TypeSpec,
                                    d: Declarator, dim: nat, items: seq<Datum>, k: nat, path: Path)
    requires Usable(pc.cfg) && Ready(pc, t, d, None) && dim < |Dims(d)|
    requires ElementSpot(pc, pos, order, t, d, dim, k, path).Some?
    ensures var v := if k < |items| then DatumAt(t, d, dim + 1, items[k], path) else None;
      Effect(pc, b, PackedItems(pc, b, pos, order, t, d, dim, items, k + 1),
             ElementSpot(pc, pos, order, t, d, dim, k, path).value, v)
    decreases t, 1, 2 * (|Dims(d)| - dim), 0
  {
    var stride, x := Stride(d, dim), ElementSpot(pc, pos, order, t, d, dim, k, path).value;
    var at, a := Element(pos, k, stride), PackedItems(pc, b, pos, order, t, d, dim, items, k);
    StrideIs(pc, t, d, dim);
    ElementIs(pos, k, stride);
    ElementWithin(pc, pos, order, t, d, dim, k, path);
    ItemsChange(pc, b, pos, order, t, d, dim, items, k);
    if k < |items| {
      TypeWritten(pc, a, at, order, t, d, dim + 1, None, items[k], path);
    }
    EffectBefore(pc, b, a, PackedItems(pc, b, pos, order, t, d, dim, items, k + 1), x,
                 if k < |items| then DatumAt(t, d, dim + 1, items[k], path) else None,
                 8 * at, 8 * (at + stride), 8 * pos, 8 * at);
  }

  lemma {:induction false} ItemWritten(pc: PackConfig, b: seq<byte>, pos: nat, order: ByteOrder, t: TypeSpec,
                                       bi: Option<BitInfo>, v: Datum, path: Path)
    requires Usable(pc.cfg) && LaidOut(pc.cfg, t) && Packable(pc, t, bi) && Simply(t) && BitsOk(bi)
    requires ItemSpot(pc, pos, order, t, bi, path).Some?
    ensures Effect(pc, b, PackedItem(pc, b, pos, order, t, bi, v), ItemSpot(pc, pos, order, t, bi, path).value,
                   ItemDatum(t, v, path))
    decreases t, 0
  {
    match t
    case TypeRef(td) =>
      TypedefReady(pc, td, bi);
      TypeWritten(pc, b, pos, order, td.typ, td.decl, 0, bi, v, path);
    case Compound(s) =>
      assert StructPackable(pc, s);
      if v.Hash? {
        StructWritten(pc, b, pos, if s.order.Some? then s.order.value else order, s, v.members, path);
      }
    case _ =>
      LeafWithin(pc, pos, order, t, bi, path);
      LeafIs(pc, b, pos, order, t, bi, v, b);
      IntWritten(pc, b, pos, LeafOf(pc, t, bi), LeafTag(t, order), v);
  }

  lemma {:induction false} StructWritten(pc: PackConfig, b: seq<byte>, pos: nat, order: ByteOrder, s: Struct,
                                         m: map<string, Datum>, path: Path)
    requires Usable(pc.cfg) && StructLaidOut(pc.cfg, s) && StructPackable(pc, s) && Simply(Compound(s))
    requires StructSpot(pc, pos, order, s.decls, path).Some?
    ensures Effect(pc, b, PackedDecls(pc, b, pos, order, s.decls, m),
                   StructSpot(pc, pos, order, s.decls, path).value, StructDatum(s.decls, m, path))
    decreases s, 0
  {
    StructSpan(pc, s, pos);
    DeclsWritten(pc, ContextOf(pc.cfg, s), Layout.Start(pc.cfg, s), b, pos, order, s.decls, m, path);
  }

  lemma {:induction false} DeclsWritten(pc: PackConfig, c: Context, p: Progress, b: seq<byte>, pos: nat,
                                        order: ByteOrder, decls: seq<StructDecl>, m: map<string, Datum>, path: Path)
    requires Usable(pc.cfg) && Members(pc, c, p, decls) && StructSpot(pc, pos, order, decls, path).Some?
    ensures Effect(pc, b, PackedDecls(pc, b, pos, order, decls, m),
                   StructSpot(pc, pos, order, decls, path).value, StructDatum(decls, m, path))
    decreases decls
  {
    var first, sd := decls[..|decls| - 1], decls[|decls| - 1];
    var q, end := PlaceDecls(c, p, first).0, Edge(pos, PlaceDecls(c, p, decls).0);
    var a, r := PackedDecls(pc, b, pos, order, first, m), PackedDecls(pc, b, pos, order, decls, m);
    var x, v := StructSpot(pc, pos, order, decls, path).value, StructDatum(decls, m, path);
    SplitStruct(pc, c, p, decls);
    StructSpotParts(pc, pos, order, decls, path);
    StructDatumParts(decls, m, path);
    if path[0].decl < |first| {
      DeclsWithin(pc, c, p, pos, order, first, path);
      DeclsWritten(pc, c, p, b, pos, order, first, m, path);
      DeclChanges(pc, c, q, a, pos, order, sd, m);
      EffectAfter(pc, b, a, r, x, v, Edge(pos, p), Edge(pos, q), Edge(pos, q), end);
    } else {
      DeclWithin(pc, c, q, pos, order, sd, path);
      DeclWritten(pc, c, q, a, pos, order, sd, m, path);
      DeclsChange(pc, c, p, b, pos, order, first, m);
      EffectBefore(pc, b, a, r, x, v, Edge(pos, q), end, Edge(pos, p), Edge(pos, q));
    }
  }

  lemma {:induction false} StructDatumParts(decls: seq<StructDecl>, m: map<string, Datum>, path: Path)
    requires path != [] && !path[0].Item? && path[0].decl < |decls|
    ensures StructDatum(decls, m, path) ==
      if path[0].decl < |decls| - 1 then StructDatum(decls[..|decls| - 1], m, path)
      else DeclDatum(decls[|decls| - 1], m, path)
  {
    if path[0].decl < |decls| - 1 {
      assert decls[..|decls| - 1][path[0].decl] == decls[path[0].decl];
    }
  }

  ghost function DeclDatum(sd: StructDecl, m: map<string, Datum>, path: Path): Option<Datum> {
    if path == [] then None
    else
      match path[0]
      case Item(_) => None
      case Member(_, j) =>
        if j < |sd.declarators| then MemberDatum(sd.typ, sd.declarators[j], m, path[1..]) else None
      case Unnamed(_) => UnnamedDatum(sd.typ, m, path[1..])
  }

  lemma {:induction false} DeclWritten(pc: PackConfig, c: Context, p: Progress, b: seq<byte>, pos: nat,
                                       order: ByteOrder, sd: StructDecl, m: map<string, Datum>, path: Path)
    requires Usable(pc.cfg) && OneDecl(pc, c, p, sd) && DeclSpot(pc, pos, order, sd, path).Some?
    ensures Effect(pc, b, PackedDecl(pc, b, pos, order, sd, m), DeclSpot(pc, pos, order, sd, path).value,
                   DeclDatum(sd, m, path))
    decreases sd
  {
    if sd.declarators == [] {
      UnnamedWritten(pc, b, pos + sd.offset, order, sd.typ, m, path[1..]);
    } else {
      DeclaratorsOf(pc, c, p, sd);
      MembersWritten(pc, c, p, b, pos, order, sd.typ, sd.declarators, m, path[0].declarator, path[1..]);
    }
  }

  lemma {:induction false} MembersWritten(pc: PackConfig, c: Context, p: Progress, b: seq<byte>, pos: nat,
                                          order: ByteOrder, t: TypeSpec, ds: seq<Declarator>, m: map<string, Datum>,
                                          j: nat, path: Path)
    requires Usable(pc.cfg) && Declarators(pc, c, p, t, ds) && j < |ds| && ds[j] in ds
    requires MemberSpot(pc, pos, order, t, ds[j], path).Some?
    ensures Effect(pc, b, PackedMembers(pc, b, pos, order, t, ds, m), MemberSpot(pc, pos, order, t, ds[j], path).value,
                   MemberDatum(t, ds[j], m, path))
    decreases t, 3, |ds|
  {
    var first, d := ds[..|ds| - 1], ds[|ds| - 1];
    var q, end := PlaceDeclarators(c, p, t, first), Edge(pos, PlaceDeclarators(c, p, t, ds).p);
    FirstMembers(pc, c, p, t, ds);
    LastMember(pc, c, p, t, ds);
    var a, r := PackedMembers(pc, b, pos, order, t, first, m), PackedMembers(pc, b, pos, order, t, ds, m);
    var x, v := MemberSpot(pc, pos, order, t, ds[j], path).value, MemberDatum(t, ds[j], m, path);
    if j < |first| {
      assert first[j] == ds[j] && ds[j] in first;
      MembersWithin(pc, c, p, pos, order, t, first, j, path);
      MembersWritten(pc, c, p, b, pos, order, t, first, m, j, path);
      MemberChanges(pc, c, q, a, pos, order, t, d, m);
      EffectAfter(pc, b, a, r, x, v, Edge(pos, p), Edge(pos, q.p), Edge(pos, q.p), end);
    } else {
      MemberWithin(pc, c, q, pos, order, t, d, path);
      MemberWritten(pc, a, pos, order, t, d, m, path, c, q);
      MembersChange(pc, c, p, b, pos, order, t, first, m);
      EffectBefore(pc, b, a, r, x, v, Edge(pos, q.p), end, Edge(pos, p), Edge(pos, q.p));
    }
  }

  lemma {:induction false} MemberWritten(pc: PackConfig, b: seq<byte>, pos: nat, order: ByteOrder, t: TypeSpec,
                                         d: Declarator, m: map<string, Datum>, path: Path, c: Context, r: Placed)
    requires Usable(pc.cfg) && OneMember(pc, c, r, t, d) && MemberSpot(pc, pos, order, t, d, path).Some?
    ensures Effect(pc, b, PackedMember(pc, b, pos, order, t, d, m), MemberSpot(pc, pos, order, t, d, path).value,
                   MemberDatum(t, d, m, path))
    decreases t, 2
  {
    if d.name in m {
      MemberSpan(pc, c, r, t, d, pos);
      TypeWritten(pc, b, pos + d.offset, order, t, d, 0, BitsOf(d), m[d.name], path);
    }
  }

  lemma {:induction false} UnnamedWritten(pc: PackConfig, b: seq<byte>, pos: nat, order: ByteOrder, t: TypeSpec,
                                          m: map<string, Datum>, path: Path)
    requires Usable(pc.cfg) && LaidOut(pc.cfg, t) && UnnamedPackable(pc, t) && Simply(t)
    requires UnnamedSpot(pc, pos, order, t, path).Some?
    ensures Effect(pc, b, PackedUnnamed(pc, b, pos, order, t, m), UnnamedSpot(pc, pos, order, t, path).value,
                   UnnamedDatum(t, m, path))
    decreases t, 2
  {
    match t
    case Compound(s) => StructWritten(pc, b, pos, order, s, m, path);
    case TypeRef(td) => UnnamedWritten(pc, b, pos, order, td.typ, m, path);
    case _ =>
  }

  /** So an integer n with a container of its own is written as its digits of base 256, the least significant one
      first or last, as the innermost tag on the way to it says, and cut off after its size. */
  lemma {:induction false} BytesWritten(pc: PackConfig, b: seq<byte>, pos: nat, order: ByteOrder, t: TypeSpec,
                                        d: Declarator, v: Datum, path: Path, x: Spot, n: int, k: nat)
    requires Usable(pc.cfg) && Ready(pc, t, d, None) && TypeSpot(pc, pos, order, t, d, 0, None, path) == Some(x)
    requires DatumAt(t, d, 0, v, path) == Some(Num(n)) && x.bits == 0 && k < x.size
    ensures var r := PackedType(pc, b, pos, order, t, d, 0, None, v);
      && x.pos + x.size <= |r|
      && r[x.pos + if x.order == LittleEndian then k else x.size - 1 - k] == (n / Pow2(8 * k)) % 256
  {
    var r := PackedType(pc, b, pos, order, t, d, 0, None, v);
    assert Stores(r, x, n) by {
      TypeWritten(pc, b, pos, order, t, d, 0, None, v, path);
    }
    StoredDigits(r, x, n, k);
  }
}
