/**
 Laying out whole types from the inside out, as it happens after parsing: typedefs get their sizes,
 and every compound is laid out once the types of its members are. The results are the laid-out
 types that addressing and packing work on.
 */
module LayoutDriver {
  import opened IntegerMemory
  import opened CTypes
  import opened Bitfields
  import opened BitfieldSafety
  import opened Layout
  import opened LayoutLikeness

  /** Integer types, also through typedefs: the types of bitfields. */
  ghost predicate Scalar(t: TypeSpec) {
    match t
    case Basic(_) => true
    case Enum(_, _, _) => true
    case TypeRef(td) => !td.decl.pointer && !td.decl.ext.Array? && Scalar(td.typ)
    case Compound(_) => false
  }

  /** A type as the parser leaves it: enums have sizes, bitfields have the types and widths C allows, and
      compounds and typedefs of compounds that were never defined have no sizes. */
  ghost predicate Parsed(cfg: Config, t: TypeSpec) {
    Sized(cfg.lp, t) &&
    match t
    case TypeRef(td) =>
      && Parsed(cfg, td.typ) && !td.decl.ext.Bitfield?
      && (TypeInfo(cfg.lp, td.typ, td.decl).known || (td.decl.size == -1 && td.decl.itemSize == -1))
    case Compound(s) =>
      && s.align == 0 && s.size == 0
      && forall sd | sd in s.decls :: Parsed(cfg, sd.typ) && BitfieldsOk(cfg, s.isUnion, s.pack, sd)
    case _ => true
  }

  ghost predicate ParsedDecl(cfg: Config, isUnion: bool, pack: nat, sd: StructDecl) {
    Parsed(cfg, sd.typ) && BitfieldsOk(cfg, isUnion, pack, sd)
  }

  ghost predicate AllParsed(cfg: Config, isUnion: bool, pack: nat, decls: seq<StructDecl>) {
    forall i | 0 <= i < |decls| :: ParsedDecl(cfg, isUnion, pack, decls[i])
  }

  ghost predicate BitfieldsOk(cfg: Config, isUnion: bool, pack: nat, sd: StructDecl)
    requires Sized(cfg.lp, sd.typ)
  {
    forall d | d in sd.declarators && d.ext.Bitfield? ::
      !d.pointer && Scalar(sd.typ) && MemberOk(ContextOf(cfg, Struct(isUnion, pack, [], 0, 0, None)), sd.typ, d)
  }

  /** Two types that take the same room as far as no compound has a say in it. */
  ghost predicate SameRoom(lp: LayoutParam, t: TypeSpec, r: TypeSpec) {
    && Sized(lp, t) && Sized(lp, r) && Scalar(t) == Scalar(r)
    && (Scalar(t) ==> ItemInfo(lp, r, false) == ItemInfo(lp, t, false))
    && ItemInfo(lp, r, false).known == ItemInfo(lp, t, false).known
  }

  lemma {:induction false} AlignPositive(cfg: Config, t: TypeSpec, pointer: bool)
    requires Usable(cfg) && LaidOut(cfg, t)
    ensures ItemInfo(cfg.lp, t, pointer).align > 0
    decreases t
  {
    if !pointer && t.TypeRef? {
      AlignPositive(cfg, t.typedef.typ, t.typedef.decl.pointer);
    } else if !pointer && t.Compound? && t.body.decls != [] {
      assert StructLaidOut(cfg, t.body);
    }
  }

  /** A declaration whose type has been laid out can be placed. */
  lemma {:induction false} DeclReady(cfg: Config, isUnion: bool, pack: nat, sd: StructDecl, typ: TypeSpec)
    requires Usable(cfg) && ParsedDecl(cfg, isUnion, pack, sd) && LaidOut(cfg, typ) && SameRoom(cfg.lp, sd.typ, typ)
    ensures DeclOk(ContextOf(cfg, Struct(isUnion, pack, [], 0, 0, None)), sd.(typ := typ))
  {
    AlignPositive(cfg, typ, false);
    AlignPositive(cfg, typ, true);
  }

  // ----- The laid-out type -----

  /** A typedef's declarator gets its sizes unless its type was never defined. */
  ghost function Measured(cfg: Config, typ: TypeSpec, d: Declarator): Declarator
    requires Sized(cfg.lp, typ)
  {
    var i := TypeInfo(cfg.lp, typ, d);
    if i.known then d.(size := i.size, itemSize := i.item) else d
  }

  lemma KnownBehind(lp: LayoutParam, t: TypeSpec, d: Declarator)
    requires Sized(lp, t)
    ensures TypeInfo(lp, t, d).known == (d.pointer || ItemInfo(lp, t, false).known)
  {
  }

  lemma {:induction false} TypedefRoom(lp: LayoutParam, td: Typedef, typ: TypeSpec, d: Declarator)
    requires SameRoom(lp, td.typ, typ) && d == td.decl.(size := d.size, itemSize := d.itemSize)
    ensures SameRoom(lp, TypeRef(td), TypeRef(Typedef(typ, d)))
    ensures TypeInfo(lp, typ, d) == TypeInfo(lp, typ, td.decl)
    ensures TypeInfo(lp, typ, d).known == TypeInfo(lp, td.typ, td.decl).known
  {
    assert Dims(d) == Dims(td.decl);
    KnownBehind(lp, td.typ, td.decl);
    KnownBehind(lp, typ, d);
    assert Scalar(TypeRef(td)) ==> TypeInfo(lp, typ, d) == TypeInfo(lp, td.typ, td.decl);
  }

  lemma {:induction false} TypedefReady(cfg: Config, td: Typedef, typ: TypeSpec)
    requires Usable(cfg) && Parsed(cfg, TypeRef(td)) && LaidOut(cfg, typ) && SameRoom(cfg.lp, td.typ, typ)
    ensures var r := TypeRef(Typedef(typ, Measured(cfg, typ, td.decl)));
      LaidOut(cfg, r) && SameRoom(cfg.lp, TypeRef(td), r)
  {
    TypedefRoom(cfg.lp, td, typ, Measured(cfg, typ, td.decl));
  }

  /** What laying out makes of the compound with the declarations of s. */
  ghost function Laid(cfg: Config, s: Struct): (r: TypeSpec)
    requires Usable(cfg) && DeclsOk(ContextOf(cfg, s), s.decls) && s.decls != [] && s.size == 0
    requires forall sd | sd in s.decls :: LaidOut(cfg, sd.typ)
    ensures LaidOut(cfg, r) && r.Compound? && r.body.decls != []
  {
    LayoutAgain(cfg, s);
    Compound(PlaceStruct(cfg, s))
  }

  ghost function Updated(cfg: Config, t: TypeSpec): (r: TypeSpec)
    requires Usable(cfg) && Parsed(cfg, t)
    ensures LaidOut(cfg, r) && SameRoom(cfg.lp, t, r)
    decreases t
  {
    match t
    case TypeRef(td) =>
      var typ := Updated(cfg, td.typ);
      TypedefReady(cfg, td, typ);
      TypeRef(Typedef(typ, Measured(cfg, typ, td.decl)))
    case Compound(s) =>
      if s.decls == [] then t
      else
        assert AllParsed(cfg, s.isUnion, s.pack, s.decls);
        var decls := UpdatedDecls(cfg, s.isUnion, s.pack, s.decls);
        ReadyToPlace(cfg, s, decls);
        Laid(cfg, s.(decls := decls))
    case _ => t
  }

  ghost function UpdatedDecl(cfg: Config, isUnion: bool, pack: nat, sd: StructDecl): (r: StructDecl)
    requires Usable(cfg) && ParsedDecl(cfg, isUnion, pack, sd)
    ensures r == sd.(typ := r.typ) && LaidOut(cfg, r.typ) && SameRoom(cfg.lp, sd.typ, r.typ)
    decreases sd
  {
    sd.(typ := Updated(cfg, sd.typ))
  }

  ghost function UpdatedDecls(cfg: Config, isUnion: bool, pack: nat, decls: seq<StructDecl>): (r: seq<StructDecl>)
    requires Usable(cfg) && AllParsed(cfg, isUnion, pack, decls)
    ensures |r| == |decls|
    ensures forall i | 0 <= i < |r| :: r[i] == UpdatedDecl(cfg, isUnion, pack, decls[i])
    decreases decls
  {
    if decls == [] then []
    else
      var k := |decls| - 1;
      UpdatedDecls(cfg, isUnion, pack, decls[..k]) + [UpdatedDecl(cfg, isUnion, pack, decls[k])]
  }

  /** The declarations decls of s with types laid out. */
  lemma {:induction false} ReadyToPlace(cfg: Config, s: Struct, decls: seq<StructDecl>)
    requires Usable(cfg) && AllParsed(cfg, s.isUnion, s.pack, s.decls) && |decls| == |s.decls|
    requires forall i | 0 <= i < |decls| ::
      && decls[i] == s.decls[i].(typ := decls[i].typ)
      && LaidOut(cfg, decls[i].typ) && SameRoom(cfg.lp, s.decls[i].typ, decls[i].typ)
    ensures var inner := s.(decls := decls); DeclsOk(ContextOf(cfg, inner), decls)
    ensures forall sd | sd in decls :: LaidOut(cfg, sd.typ)
  {
    forall sd | sd in decls
      ensures DeclOk(ContextOf(cfg, s), sd) && LaidOut(cfg, sd.typ)
    {
      var i :| 0 <= i < |decls| && decls[i] == sd;
      DeclReady(cfg, s.isUnion, s.pack, s.decls[i], sd.typ);
    }
  }

  // ----- The drivers -----

  /** `reset_parse_info`: sizes and alignments are cleared. */
  ghost function Reset(t: TypeSpec): TypeSpec
    decreases t
  {
    match t
    case TypeRef(td) => TypeRef(Typedef(Reset(td.typ), td.decl.(size := -1, itemSize := -1)))
    case Compound(s) => Compound(s.(decls := ResetDecls(s.decls), align := 0, size := 0))
    case _ => t
  }

  ghost function ResetDecls(decls: seq<StructDecl>): (r: seq<StructDecl>)
    ensures |r| == |decls| && forall i | 0 <= i < |r| :: r[i] == decls[i].(typ := Reset(decls[i].typ))
    decreases decls
  {
    if decls == [] then []
    else
      var k := |decls| - 1;
      ResetDecls(decls[..k]) + [decls[k].(typ := Reset(decls[k].typ))]
  }

  /** No compound has been laid out yet. */
  ghost predicate Cleared(t: TypeSpec) {
    match t
    case TypeRef(td) => Cleared(td.typ)
    case Compound(s) => s.align == 0 && s.size == 0 && forall i | 0 <= i < |s.decls| :: Cleared(s.decls[i].typ)
    case _ => true
  }

  lemma {:induction false} ResetClears(t: TypeSpec)
    ensures Cleared(Reset(t))
    decreases t
  {
    match t
    case TypeRef(td) => ResetClears(td.typ);
    case Compound(s) =>
      forall i | 0 <= i < |s.decls|
        ensures Cleared(ResetDecls(s.decls)[i].typ)
      {
        ResetClears(s.decls[i].typ);
      }
    case _ =>
  }

  method UpdateType(cfg: Config, bl: BitfieldLayouter, t: TypeSpec) returns (r: TypeSpec)
    requires Usable(cfg) && Parsed(cfg, t) && Cleared(t)
    requires bl.cls == cfg.cls && (bl.State().Simple? ==> bl.State().block.blockSize == cfg.blockSize)
    modifies bl.Repr()
    ensures r == Updated(cfg, t)
    ensures bl.State().Simple? ==> bl.State().block.blockSize == cfg.blockSize
    decreases t
  {
    match t {
      case TypeRef(td) =>
        var typ := UpdateType(cfg, bl, td.typ);
        var i := GetTypeInfo(cfg.lp, typ, Some(td.decl));
        r := TypeRef(Typedef(typ, if i.known then td.decl.(size := i.size, itemSize := i.item) else td.decl));
      case Compound(s) =>
        if s.decls == [] {
          return t;
        }
        assert AllParsed(cfg, s.isUnion, s.pack, s.decls);
        var decls := UpdateDecls(cfg, bl, s.isUnion, s.pack, s.decls);
        ReadyToPlace(cfg, s, decls);
        var laid := LayoutCompound(cfg, bl, s.(decls := decls));
        r := Compound(laid);
      case _ => r := t;
    }
  }

  method UpdateDecls(cfg: Config, bl: BitfieldLayouter, isUnion: bool, pack: nat, decls: seq<StructDecl>)
    returns (r: seq<StructDecl>)
    requires Usable(cfg) && AllParsed(cfg, isUnion, pack, decls) && forall i | 0 <= i < |decls| :: Cleared(decls[i].typ)
    requires bl.cls == cfg.cls && (bl.State().Simple? ==> bl.State().block.blockSize == cfg.blockSize)
    modifies bl.Repr()
    ensures r == UpdatedDecls(cfg, isUnion, pack, decls)
    ensures bl.State().Simple? ==> bl.State().block.blockSize == cfg.blockSize
    decreases decls
  {
    r := [];
    var k := 0;
    while k < |decls|
      invariant k <= |decls| && |r| == k
      invariant forall i | 0 <= i < k :: r[i] == UpdatedDecl(cfg, isUnion, pack, decls[i])
      invariant bl.State().Simple? ==> bl.State().block.blockSize == cfg.blockSize
    {
      var typ := UpdateType(cfg, bl, decls[k].typ);
      r := r + [decls[k].(typ := typ)];
      k := k + 1;
    }
  }

  // ----- Laying out again for another configuration -----

  lemma {:induction false} BareAt(ds: seq<Declarator>, i: nat)
    requires i < |ds|
    ensures AllBare(ds)[i] == Bare(ds[i])
  {
    if i < |ds| - 1 {
      BareAt(ds[..|ds| - 1], i);
    }
  }

  /** A declaration that an earlier layout has been through. */
  ghost predicate Reused(lp: LayoutParam, sd: StructDecl, sd': StructDecl) {
    AllBare(sd.declarators) == AllBare(sd'.declarators) && SameRoom(lp, sd.typ, sd'.typ)
  }

  lemma {:induction false} ReusedParsed(cfg: Config, isUnion: bool, pack: nat, sd: StructDecl, sd': StructDecl)
    requires ParsedDecl(cfg, isUnion, pack, sd) && Parsed(cfg, sd'.typ) && Reused(cfg.lp, sd, sd')
    ensures ParsedDecl(cfg, isUnion, pack, sd')
  {
    forall d | d in sd'.declarators && d.ext.Bitfield?
      ensures !d.pointer && Scalar(sd'.typ)
      ensures MemberOk(ContextOf(cfg, Struct(isUnion, pack, [], 0, 0, None)), sd'.typ, d)
    {
      var i :| 0 <= i < |sd'.declarators| && sd'.declarators[i] == d;
      assert |AllBare(sd.declarators)| == |AllBare(sd'.declarators)|;
      BareAt(sd.declarators, i);
      BareAt(sd'.declarators, i);
      assert sd.declarators[i] in sd.declarators;
    }
  }

  /** v is laid out as t is. */
  ghost predicate Renews(cfg: Config, t: TypeSpec, v: TypeSpec)
    requires Usable(cfg) && Parsed(cfg, t)
  {
    Parsed(cfg, v) && SameRoom(cfg.lp, t, v) && Updated(cfg, v) == Updated(cfg, t)
  }

  /** A type laid out for cfg, cleared to be laid out again. */
  ghost function Recycled(cfg: Config, t: TypeSpec): TypeSpec
    requires Usable(cfg) && Parsed(cfg, t)
  {
    Reset(Updated(cfg, t))
  }

  lemma {:induction false} RecycledDecls(cfg: Config, s: Struct)
    requires Usable(cfg) && Parsed(cfg, Compound(s)) && s.decls != []
    ensures var v := Recycled(cfg, Compound(s));
      && v.Compound? && v.body == s.(decls := v.body.decls, align := 0, size := 0) && |v.body.decls| == |s.decls|
      && forall i | 0 <= i < |s.decls| :: Parsed(cfg, s.decls[i].typ)
           && AllBare(v.body.decls[i].declarators) == AllBare(s.decls[i].declarators)
           && v.body.decls[i].typ == Recycled(cfg, s.decls[i].typ)
  {
    assert AllParsed(cfg, s.isUnion, s.pack, s.decls);
    var decls := UpdatedDecls(cfg, s.isUnion, s.pack, s.decls);
    ReadyToPlace(cfg, s, decls);
    var inner := s.(decls := decls);
    LayoutAgain(cfg, inner);
    forall i | 0 <= i < |s.decls|
      ensures var d := PlaceStruct(cfg, inner).decls[i];
        AllBare(d.declarators) == AllBare(s.decls[i].declarators) && d.typ == Updated(cfg, s.decls[i].typ)
    {
      BareDeclsAt(PlaceStruct(cfg, inner).decls, i);
      BareDeclsAt(decls, i);
    }
  }

  /** Compounds whose declarations differ in what an earlier layout left in them are laid out alike. */
  lemma {:induction false} SamePlaces(cfg: Config, s: Struct, v: Struct)
    requires Usable(cfg) && AllParsed(cfg, s.isUnion, s.pack, s.decls) && AllParsed(cfg, s.isUnion, s.pack, v.decls)
    requires s.decls != [] && |v.decls| == |s.decls| && v == s.(decls := v.decls) && s.align == 0 && s.size == 0
    requires forall i | 0 <= i < |s.decls| ::
      && AllBare(v.decls[i].declarators) == AllBare(s.decls[i].declarators)
      && Updated(cfg, v.decls[i].typ) == Updated(cfg, s.decls[i].typ)
    ensures Parsed(cfg, Compound(s)) && Parsed(cfg, Compound(v))
    ensures Updated(cfg, Compound(v)) == Updated(cfg, Compound(s))
  {
    var sds, vds := UpdatedDecls(cfg, s.isUnion, s.pack, s.decls), UpdatedDecls(cfg, s.isUnion, s.pack, v.decls);
    forall i | 0 <= i < |sds|
      ensures BareDecls(sds)[i] == BareDecls(vds)[i]
    {
      BareDeclsAt(sds, i);
      BareDeclsAt(vds, i);
    }
    assert BareDecls(sds) == BareDecls(vds);
    ReadyToPlace(cfg, s, sds);
    StructAlike(cfg, s.(decls := sds), v.(decls := vds));
  }

  lemma {:induction false} TypedefRenews(cfg: Config, td: Typedef, typ: TypeSpec)
    requires Usable(cfg) && Parsed(cfg, TypeRef(td)) && Renews(cfg, td.typ, typ)
    ensures Renews(cfg, TypeRef(td), TypeRef(Typedef(typ, td.decl.(size := -1, itemSize := -1))))
  {
    TypedefRoom(cfg.lp, td, typ, td.decl.(size := -1, itemSize := -1));
  }

  lemma {:induction false} StructRenews(cfg: Config, s: Struct, v: Struct)
    requires Usable(cfg) && Parsed(cfg, Compound(s))
    requires s.decls != [] && |v.decls| == |s.decls| && v == s.(decls := v.decls) && s.align == 0 && s.size == 0
    requires forall i | 0 <= i < |s.decls| ::
      && AllBare(v.decls[i].declarators) == AllBare(s.decls[i].declarators)
      && Parsed(cfg, s.decls[i].typ) && Renews(cfg, s.decls[i].typ, v.decls[i].typ)
    ensures Renews(cfg, Compound(s), Compound(v))
  {
    assert AllParsed(cfg, s.isUnion, s.pack, s.decls);
    forall i | 0 <= i < |s.decls|
      ensures ParsedDecl(cfg, s.isUnion, s.pack, v.decls[i])
    {
      ReusedParsed(cfg, s.isUnion, s.pack, s.decls[i], v.decls[i]);
    }
    SamePlaces(cfg, s, v);
  }

  lemma {:induction false} ResetRenews(cfg: Config, t: TypeSpec)
    requires Usable(cfg) && Parsed(cfg, t)
    ensures Renews(cfg, t, Reset(t))
    decreases t
  {
    match t
    case TypeRef(td) => ResetRenews(cfg, td.typ); TypedefRenews(cfg, td, Reset(td.typ));
    case Compound(s) =>
      if s.decls != [] {
        assert AllParsed(cfg, s.isUnion, s.pack, s.decls);
        forall i | 0 <= i < |s.decls|
          ensures Parsed(cfg, s.decls[i].typ) && Renews(cfg, s.decls[i].typ, Reset(s.decls[i].typ))
        {
          ResetRenews(cfg, s.decls[i].typ);
        }
        StructRenews(cfg, s, Reset(t).body);
      }
    case _ =>
  }

  /** Whatever sizes and alignments a type has been given, once it is reset it is laid out as if it had none. */
  lemma {:induction false} ResetForgets(cfg: Config, t: TypeSpec, v: TypeSpec)
    requires Usable(cfg) && Parsed(cfg, t) && Reset(v) == Reset(t)
    ensures Renews(cfg, t, Reset(v))
  {
    ResetRenews(cfg, t);
  }

  /** What is laid out, cleared and laid out for another configuration is as if laid out for that one alone. */
  lemma {:induction false} Reconfigured(cfg: Config, before: Config, t: TypeSpec)
    requires Usable(cfg) && Usable(before) && Parsed(cfg, t) && Parsed(before, t)
    ensures Renews(cfg, t, Recycled(before, t))
    decreases t
  {
    match t
    case TypeRef(td) => Reconfigured(cfg, before, td.typ); TypedefRenews(cfg, td, Recycled(before, td.typ));
    case Compound(s) =>
      if s.decls != [] {
        assert AllParsed(cfg, s.isUnion, s.pack, s.decls);
        RecycledDecls(before, s);
        forall i | 0 <= i < |s.decls|
          ensures Parsed(cfg, s.decls[i].typ) && Renews(cfg, s.decls[i].typ, Recycled(before, s.decls[i].typ))
        {
          Reconfigured(cfg, before, s.decls[i].typ);
        }
        StructRenews(cfg, s, Recycled(before, t).body);
      }
    case _ =>
  }
}
