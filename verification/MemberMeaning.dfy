/**
 What a member expression means: element by element and member by member, without levels, sizes and search order;
 and that looking it up gives that, and fails exactly where it means nothing.
 */
module MemberMeaning {
  import Bits
  import opened CTypes
  import opened Bitfields
  import opened Layout
  import opened Walker
  import opened MemberLookup
  import opened MemberRoundTrip

  // ----- Declared members -----

  /** h is declared in s under that name, by itself or in an unnamed member. */
  ghost predicate Declares(s: Struct, name: string, h: Located)
    decreases s
  {
    exists i :: 0 <= i < |s.decls| && DeclaresIn(s.decls[i], name, h)
  }

  ghost predicate DeclaresIn(sd: StructDecl, name: string, h: Located)
    decreases sd
  {
    if sd.declarators == [] then DeclaresUnnamed(sd.typ, name, h.(offset := h.offset - sd.offset))
    else exists d | d in sd.declarators :: d.name == name && h == Located(sd.typ, d, d.offset)
  }

  ghost predicate DeclaresUnnamed(t: TypeSpec, name: string, h: Located)
    decreases t
  {
    match t
    case Compound(s) => Declares(s, name, h)
    case TypeRef(td) => DeclaresUnnamed(td.typ, name, h)
    case _ => false
  }

  /** The search finds what is declared, and nothing else. */
  lemma {:induction false} FoundIffDeclared(cfg: Config, s: Struct, name: string, h: Located)
    requires Usable(cfg) && StructLaidOut(cfg, s) && Resolvable(Compound(s))
    ensures FindMember(s, name) == Some(h) <==> Declares(s, name, h)
    ensures Declares(s, name, h) ==> h.offset >= 0
    decreases s, 1
  {
    PlainMembers(s);
    StructLaid(cfg, s);
    if FindMember(s, name).Some? {
      FoundSomewhere(s.decls, name);
      var i :| 0 <= i < |s.decls| && FindInDecl(s.decls[i], name) == FindInDecls(s.decls, name);
      EntryIff(cfg, s, i, name, FindInDecls(s.decls, name).value);
      if FindMember(s, name) == Some(h) {
        assert DeclaresIn(s.decls[i], name, h);
      }
    }
    if Declares(s, name, h) {
      var i :| 0 <= i < |s.decls| && DeclaresIn(s.decls[i], name, h);
      EntryIff(cfg, s, i, name, h);
      FirstFound(s.decls, i, name);
    }
  }

  lemma {:induction false} EntryIff(cfg: Config, s: Struct, i: nat, name: string, h: Located)
    requires Usable(cfg) && StructLaidOut(cfg, s) && Resolvable(Compound(s)) && i < |s.decls|
    requires forall sd | sd in s.decls :: DeclLaid(cfg.lp, s.isUnion, sd)
    ensures FindInDecl(s.decls[i], name) == Some(h) <==> DeclaresIn(s.decls[i], name, h)
    ensures DeclaresIn(s.decls[i], name, h) ==> h.offset >= 0
    ensures DeclaresIn(s.decls[i], name, h) ==> forall j | 0 <= j < i :: FindInDecl(s.decls[j], name).None?
    decreases s, 0
  {
    var sd := s.decls[i];
    assert sd in s.decls && DeclResolvable(sd);
    InDeclIff(cfg, s.isUnion, sd, name, h);
    FoundOffset(cfg.lp, s.isUnion, sd, name);
  }

  lemma {:induction false} FoundSomewhere(decls: seq<StructDecl>, name: string)
    ensures FindInDecls(decls, name).Some? ==>
      exists i | 0 <= i < |decls| :: FindInDecl(decls[i], name) == FindInDecls(decls, name)
    decreases |decls|
  {
    if decls != [] && FindInDecl(decls[0], name).None? {
      FoundSomewhere(decls[1..], name);
    }
  }

  lemma {:induction false} InDeclIff(cfg: Config, isUnion: bool, sd: StructDecl, name: string, h: Located)
    requires Usable(cfg) && LaidOut(cfg, sd.typ) && DeclLaid(cfg.lp, isUnion, sd) && DeclResolvable(sd)
    requires DistinctNames(sd.declarators)
    ensures FindInDecl(sd, name) == Some(h) <==> DeclaresIn(sd, name, h)
    decreases sd
  {
    if sd.declarators == [] {
      UnnamedIff(cfg, sd.typ, name, h.(offset := h.offset - sd.offset));
    } else {
      FoundDeclarator(sd.declarators, name);
      forall d | d in sd.declarators && d.name == name
        ensures FindDeclarator(sd.declarators, name) == Some(d)
      {
        var k :| 0 <= k < |sd.declarators| && sd.declarators[k] == d;
        DeclaratorFound(sd.declarators, k);
      }
    }
  }

  lemma {:induction false} UnnamedIff(cfg: Config, t: TypeSpec, name: string, h: Located)
    requires Usable(cfg) && LaidOut(cfg, t) && Unnamed(t) && Resolvable(t)
    ensures FindUnnamed(t, name) == Some(h) <==> DeclaresUnnamed(t, name, h)
    decreases t
  {
    match t
    case Compound(s) => FoundIffDeclared(cfg, s, name, h);
    case TypeRef(td) => UnnamedIff(cfg, td.typ, name, h);
    case _ =>
  }

  // ----- Expressions -----

  /** From an array of the dimensions (or an item, if there are none) the tokens lead n bytes further; indices may be
      bounded, and offsets unwanted. */
  ghost predicate Means(lp: LayoutParam, bounded: bool, plain: bool, t: TypeSpec, pointer: bool, dims: seq<nat>,
                        ts: seq<Token>, n: int)
    requires Sized(lp, t)
    decreases |ts|, 0, t
  {
    if ts == [] then n == 0
    else if dims == [] && !pointer && t.TypeRef? then
      Means(lp, bounded, plain, t.typedef.typ, t.typedef.decl.pointer, Dims(t.typedef.decl), ts, n)
    else
      match ts[0]
      case Off(k) => !plain && Means(lp, bounded, plain, t, pointer, dims, ts[1..], n - k)
      case Ix(k) =>
        && dims != [] && (bounded ==> 0 <= k < dims[0])
        && Means(lp, bounded, plain, t, pointer, dims[1..], ts[1..], n - k * PartSize(lp, t, pointer, dims))
      case Id(name) =>
        && dims == [] && !pointer && t.Compound?
        && exists h: Located :: Declares(t.body, name, h) && Onwards(lp, bounded, plain, h, ts[1..], n - h.offset)
  }

  ghost predicate Onwards(lp: LayoutParam, bounded: bool, plain: bool, h: Located, ts: seq<Token>, n: int)
    decreases |ts|, 1
  {
    Sized(lp, h.typ) && Means(lp, bounded, plain, h.typ, h.decl.pointer, Dims(h.decl), ts, n)
  }

  /** Bytes of one element. */
  ghost function PartSize(lp: LayoutParam, t: TypeSpec, pointer: bool, dims: seq<nat>): nat
    requires Sized(lp, t) && dims != []
  {
    ItemInfo(lp, t, pointer).item * Product(dims[1..])
  }

  // ----- Looking up -----

  /** A place reached by the search: an array of the dimensions that are left, or an item. */
  ghost predicate At(cfg: Config, p: Place, t: TypeSpec, pointer: bool, dims: seq<nat>)
    requires Usable(cfg)
  {
    && LaidOut(cfg, t) && (!pointer ==> Resolvable(t)) && p.typ == t
    && match p.decl
       case None => !pointer && dims == [] && !t.TypeRef?
       case Some(d) =>
         && d.pointer == pointer && DimsOk(d) && p.level <= |Dims(d)| && dims == Dims(d)[p.level..]
         && p.size == ItemInfo(cfg.lp, t, pointer).item * Product(dims)
  }

  /** Typedefs that are passed over have the same meaning. */
  lemma {:induction false} FollowMeans(cfg: Config, flags: Flags, t: TypeSpec, d: Declarator, ts: seq<Token>, n: int)
    requires Usable(cfg) && Declared(cfg, t, d) && ts != []
    ensures var (t', d') := Follow(t, d);
      && Declared(cfg, t', d') && (d'.pointer || !t'.TypeRef? || d'.ext.Array?)
      && (Means(cfg.lp, flags.rejectOutOfBounds, flags.rejectOffset, t, d.pointer, Dims(d), ts, n)
          <==> Means(cfg.lp, flags.rejectOutOfBounds, flags.rejectOffset, t', d'.pointer, Dims(d'), ts, n))
    decreases t
  {
    if !d.pointer && t.TypeRef? && !d.ext.Array? {
      TypedefDeclared(cfg, t.typedef);
      FollowMeans(cfg, flags, t.typedef.typ, t.typedef.decl, ts, n);
    }
  }

  lemma {:induction false} EnterTypedef(cfg: Config, p: Place, t: TypeSpec, d: Declarator)
    requires Usable(cfg) && Declared(cfg, t, d) && p == Place(t, Some(d), 0, d.size, p.offset)
    ensures At(cfg, p, t, d.pointer, Dims(d))
  {
    assert Dims(d)[0..] == Dims(d);
  }

  /** The search gets n bytes further exactly if that is what the tokens mean. */
  lemma {:induction false} LeadsIffMeans(cfg: Config, flags: Flags, p: Place, t: TypeSpec, pointer: bool,
                                         dims: seq<nat>, ts: seq<Token>, n: int)
    requires Usable(cfg) && At(cfg, p, t, pointer, dims) && !flags.acceptDotless
    ensures LeadsTo(flags, p, ts, p.offset + n)
        <==> Means(cfg.lp, flags.rejectOutOfBounds, flags.rejectOffset, t, pointer, dims, ts, n)
    decreases |ts|, 0, t
  {
    if ts != [] {
      if dims == [] && !pointer && t.TypeRef? {
        TypedefIffMeans(cfg, flags, p, t, ts, n);
      } else {
        match ts[0]
        case Off(k) => OffsetIffMeans(cfg, flags, p, t, pointer, dims, ts, k, n);
        case Ix(k) => IndexIffMeans(cfg, flags, p, t, pointer, dims, ts, k, n);
        case Id(name) =>
          if dims == [] && !pointer && t.Compound? {
            MemberIffMeans(cfg, flags, p, t.body, name, ts, n);
          }
      }
    }
  }

  /** One token, and then the others. */
  lemma {:induction false} OneStep(flags: Flags, p: Place, ts: seq<Token>, m: int)
    requires ts != []
    ensures var r := Step(flags, p, WalkOf(ts[0]));
      LeadsTo(flags, p, ts, m) <==> r.Found? && LeadsTo(flags, r.place, ts[1..], m)
  {
  }

  lemma {:induction false} OffsetIffMeans(cfg: Config, flags: Flags, p: Place, t: TypeSpec, pointer: bool,
                                          dims: seq<nat>, ts: seq<Token>, k: nat, n: int)
    requires Usable(cfg) && At(cfg, p, t, pointer, dims) && !flags.acceptDotless
    requires ts != [] && ts[0] == Off(k) && !(dims == [] && !pointer && t.TypeRef?)
    ensures LeadsTo(flags, p, ts, p.offset + n)
        <==> Means(cfg.lp, flags.rejectOutOfBounds, flags.rejectOffset, t, pointer, dims, ts, n)
    decreases |ts|, 0, t, 0
  {
    OneStep(flags, p, ts, p.offset + n);
    OffsetStep(cfg, flags, p, t, pointer, dims, k);
    if !flags.rejectOffset {
      LeadsIffMeans(cfg, flags, p.(offset := p.offset + k), t, pointer, dims, ts[1..], n - k);
    }
  }

  lemma {:induction false} OffsetStep(cfg: Config, flags: Flags, p: Place, t: TypeSpec, pointer: bool, dims: seq<nat>,
                                      k: int)
    requires Usable(cfg) && At(cfg, p, t, pointer, dims) && !(dims == [] && !pointer && t.TypeRef?)
    ensures var q := p.(offset := p.offset + k);
      && At(cfg, q, t, pointer, dims)
      && Step(flags, p, OffsetBy(k)) == if flags.rejectOffset then Failed(OffsetRejected) else Found(q)
  {
  }

  lemma {:induction false} TypedefIffMeans(cfg: Config, flags: Flags, p: Place, t: TypeSpec, ts: seq<Token>, n: int)
    requires Usable(cfg) && At(cfg, p, t, false, []) && !flags.acceptDotless && t.TypeRef? && ts != []
    ensures LeadsTo(flags, p, ts, p.offset + n)
        <==> Means(cfg.lp, flags.rejectOutOfBounds, flags.rejectOffset, t, false, [], ts, n)
    decreases |ts|, 0, t, 0
  {
    var td, q := t.typedef, Settled(p);
    TypedefDeclared(cfg, td);
    FollowMeans(cfg, flags, td.typ, td.decl, ts, n);
    var (t', d') := Follow(td.typ, td.decl);
    EnterTypedef(cfg, q, t', d');
    assert Settled(q) == q;
    LeadsIffMeans(cfg, flags, q, t', d'.pointer, Dims(d'), ts, n);
  }

  lemma {:induction false} IndexIffMeans(cfg: Config, flags: Flags, p: Place, t: TypeSpec, pointer: bool,
                                         dims: seq<nat>, ts: seq<Token>, k: int, n: int)
    requires Usable(cfg) && At(cfg, p, t, pointer, dims) && !flags.acceptDotless
    requires ts != [] && ts[0] == Ix(k) && !(dims == [] && !pointer && t.TypeRef?)
    ensures LeadsTo(flags, p, ts, p.offset + n)
        <==> Means(cfg.lp, flags.rejectOutOfBounds, flags.rejectOffset, t, pointer, dims, ts, n)
    decreases |ts|, 0, t, 0
  {
    var r := Step(flags, p, ArrayIndex(k));
    IndexStepIs(cfg, flags, p, t, pointer, dims, k);
    if r.Found? {
      LeadsIffMeans(cfg, flags, r.place, t, pointer, dims[1..], ts[1..], n - (r.place.offset - p.offset));
    }
  }

  /** One index. */
  lemma {:induction false} IndexStepIs(cfg: Config, flags: Flags, p: Place, t: TypeSpec, pointer: bool, dims: seq<nat>,
                                       k: int)
    requires Usable(cfg) && At(cfg, p, t, pointer, dims) && Settled(p) == p
    ensures var r := Step(flags, p, ArrayIndex(k));
      && (r.Found? <==> dims != [] && (flags.rejectOutOfBounds ==> 0 <= k < dims[0]))
      && (r.Found? ==>
            && At(cfg, r.place, t, pointer, dims[1..])
            && r.place.offset == p.offset + k * PartSize(cfg.lp, t, pointer, dims))
  {
    if dims != [] {
      var part := PartSize(cfg.lp, t, pointer, dims);
      NextPart(cfg, p, t, pointer, dims, p.offset + k * part);
      IndexedTo(flags, p, p.decl.value, k, part);
    }
  }

  lemma {:induction false} NextPart(cfg: Config, p: Place, t: TypeSpec, pointer: bool, dims: seq<nat>, offset: int)
    requires Usable(cfg) && At(cfg, p, t, pointer, dims) && dims != []
    ensures p.size >= 0 && dims[0] > 0 && dims[0] == Dims(p.decl.value)[p.level]
    ensures var part := PartSize(cfg.lp, t, pointer, dims);
      && p.size / dims[0] == part
      && At(cfg, p.(level := p.level + 1, size := part, offset := offset), t, pointer, dims[1..])
  {
    assert dims[1..] == Dims(p.decl.value)[p.level + 1..];
    PartIs(ItemInfo(cfg.lp, t, pointer).item, dims);
  }

  lemma {:induction false} IndexedTo(flags: Flags, p: Place, d: Declarator, k: int, part: nat)
    requires p.decl == Some(d) && DimsOk(d) && p.level < |Dims(d)| && p.size >= 0 && Settled(p) == p
    requires p.size / Dims(d)[p.level] == part
    ensures var r := Step(flags, p, ArrayIndex(k));
      && (r.Found? <==> (flags.rejectOutOfBounds ==> 0 <= k < Dims(d)[p.level]))
      && (r.Found? ==> r.place == p.(level := p.level + 1, size := part, offset := p.offset + k * part))
  {
  }

  lemma {:induction false} PartIs(item: nat, dims: seq<nat>)
    requires dims != [] && dims[0] > 0
    ensures (item * Product(dims)) / dims[0] == item * Product(dims[1..])
  {
    ProductParts(item, dims[0], Product(dims[1..]));
    Bits.DivModUnique(item * Product(dims), dims[0], item * Product(dims[1..]), 0);
  }

  lemma {:induction false} MemberIffMeans(cfg: Config, flags: Flags, p: Place, s: Struct, name: string,
                                          ts: seq<Token>, n: int)
    requires Usable(cfg) && At(cfg, p, Compound(s), false, []) && !flags.acceptDotless
    requires ts != [] && ts[0] == Id(name)
    ensures LeadsTo(flags, p, ts, p.offset + n)
        <==> Means(cfg.lp, flags.rejectOutOfBounds, flags.rejectOffset, Compound(s), false, [], ts, n)
    decreases |ts|, 0, Compound(s), 0
  {
    var bounded, plain := flags.rejectOutOfBounds, flags.rejectOffset;
    var r := MemberStep(p, name);
    assert Step(flags, p, WalkOf(ts[0])) == r;
    if r.Found? {
      var h := FindMember(s, name).value;
      OneMeaning(cfg, bounded, plain, s, name, h, ts, n);
      EnterTypedef(cfg, r.place, h.typ, h.decl);
      LeadsIffMeans(cfg, flags, r.place, h.typ, h.decl.pointer, Dims(h.decl), ts[1..], n - h.offset);
    } else {
      NoMeaning(cfg, bounded, plain, s, name, ts, n);
    }
  }

  lemma {:induction false} OneMeaning(cfg: Config, bounded: bool, plain: bool, s: Struct, name: string, h: Located,
                                      ts: seq<Token>, n: int)
    requires Usable(cfg) && StructLaidOut(cfg, s) && Resolvable(Compound(s)) && FindMember(s, name) == Some(h)
    requires ts != [] && ts[0] == Id(name)
    ensures Declared(cfg, h.typ, h.decl)
    ensures Means(cfg.lp, bounded, plain, Compound(s), false, [], ts, n)
        <==> Onwards(cfg.lp, bounded, plain, h, ts[1..], n - h.offset)
  {
    OnlyOne(cfg, s, name, h);
    FoundDeclaration(cfg, s, name, h);
  }

  lemma {:induction false} NoMeaning(cfg: Config, bounded: bool, plain: bool, s: Struct, name: string,
                                     ts: seq<Token>, n: int)
    requires Usable(cfg) && StructLaidOut(cfg, s) && Resolvable(Compound(s)) && FindMember(s, name) == None
    requires ts != [] && ts[0] == Id(name)
    ensures !Means(cfg.lp, bounded, plain, Compound(s), false, [], ts, n)
  {
    forall h: Located
      ensures !Declares(s, name, h)
    {
      FoundIffDeclared(cfg, s, name, h);
    }
  }

  lemma {:induction false} OnlyOne(cfg: Config, s: Struct, name: string, h: Located)
    requires Usable(cfg) && StructLaidOut(cfg, s) && Resolvable(Compound(s)) && FindMember(s, name) == Some(h)
    ensures forall h': Located :: Declares(s, name, h') <==> h' == h
  {
    forall h': Located
      ensures Declares(s, name, h') <==> h' == h
    {
      FoundIffDeclared(cfg, s, name, h');
    }
  }

  /** What is declared in a laid-out compound has its size. */
  lemma {:induction false} FoundDeclaration(cfg: Config, s: Struct, name: string, h: Located)
    requires Usable(cfg) && StructLaidOut(cfg, s) && Resolvable(Compound(s)) && Declares(s, name, h)
    ensures Declared(cfg, h.typ, h.decl)
    decreases s
  {
    var i :| 0 <= i < |s.decls| && DeclaresIn(s.decls[i], name, h);
    var sd := s.decls[i];
    assert sd in s.decls && DeclResolvable(sd) && LaidOut(cfg, sd.typ);
    if sd.declarators == [] {
      UnnamedDeclaration(cfg, sd.typ, name, h.(offset := h.offset - sd.offset));
    } else {
      PlainMembers(s);
      StructLaid(cfg, s);
    }
  }

  lemma {:induction false} UnnamedDeclaration(cfg: Config, t: TypeSpec, name: string, h: Located)
    requires Usable(cfg) && LaidOut(cfg, t) && Unnamed(t) && Resolvable(t) && DeclaresUnnamed(t, name, h)
    ensures Declared(cfg, h.typ, h.decl)
    decreases t
  {
    match t
    case Compound(s) => FoundDeclaration(cfg, s, name, h);
    case TypeRef(td) => UnnamedDeclaration(cfg, td.typ, name, h);
    case _ =>
  }

  // ----- Whole expressions -----

  /** A laid-out type, or a declarator of it, pointers included, with some dimensions indexed. */
  ghost predicate InfoLaid(cfg: Config, mi: MemberInfo)
    requires Usable(cfg)
  {
    && LaidOut(cfg, mi.typ)
    && match mi.decl
       case None => Resolvable(mi.typ) && mi.level == 0
       case Some(d) => Declared(cfg, mi.typ, d) && mi.level <= |Dims(d)|
  }

  ghost predicate InfoMeans(lp: LayoutParam, bounded: bool, plain: bool, mi: MemberInfo, ts: seq<Token>, n: int)
    requires Sized(lp, mi.typ) && (mi.decl.Some? ==> mi.level <= |Dims(mi.decl.value)|)
  {
    match mi.decl
    case None => Means(lp, bounded, plain, mi.typ, false, [], ts, n)
    case Some(d) => Means(lp, bounded, plain, mi.typ, d.pointer, Dims(d)[mi.level..], ts, n)
  }

  /** Looking up an expression, of whatever tokens and however it is written, gives offset n if and only if n is what
      it means. Otherwise it fails: for members that are not declared, members of arrays and pointers, indices of what
      is no array, one index too many, and indices out of bounds or offsets when these are not wanted. */
  lemma {:induction false} LookupExact(cfg: Config, flags: Flags, mi: MemberInfo, expr: string, ts: seq<Token>, n: int)
    requires Usable(cfg) && InfoLaid(cfg, mi) && Yields(expr, true, ts)
    ensures var r := MemberAt(flags, mi, expr);
      r.Found? && r.place.offset == n <==> InfoMeans(cfg.lp, flags.rejectOutOfBounds, flags.rejectOffset, mi, ts, n)
  {
    var p := StartPlace(mi);
    StartIs(cfg, mi);
    LookupIsResolve(flags, p.value, expr, true, ts);
    StartIffMeans(cfg, flags.(acceptDotless := false), mi, ts, n);
  }

  lemma {:induction false} StartIffMeans(cfg: Config, flags: Flags, mi: MemberInfo, ts: seq<Token>, n: int)
    requires Usable(cfg) && InfoLaid(cfg, mi) && !flags.acceptDotless
    ensures StartPlace(mi).Some?
    ensures LeadsTo(flags, StartPlace(mi).value, ts, n)
        <==> InfoMeans(cfg.lp, flags.rejectOutOfBounds, flags.rejectOffset, mi, ts, n)
  {
    StartIs(cfg, mi);
    var p := StartPlace(mi).value;
    match mi.decl {
      case None =>
        if mi.typ.TypeRef? {
          var td := mi.typ.typedef;
          LeadsIffMeans(cfg, flags, p, td.typ, td.decl.pointer, Dims(td.decl), ts, n);
        } else {
          LeadsIffMeans(cfg, flags, p, mi.typ, false, [], ts, n);
        }
      case Some(d) => LeadsIffMeans(cfg, flags, p, mi.typ, d.pointer, Dims(d)[mi.level..], ts, n);
    }
  }

  lemma {:induction false} StartIs(cfg: Config, mi: MemberInfo)
    requires Usable(cfg) && InfoLaid(cfg, mi)
    ensures StartPlace(mi).Some? && StartPlace(mi).value.offset == 0
    ensures var p := StartPlace(mi).value;
      match mi.decl
      case None =>
        if mi.typ.TypeRef? then
          var td := mi.typ.typedef;
          At(cfg, p, td.typ, td.decl.pointer, Dims(td.decl))
        else At(cfg, p, mi.typ, false, [])
      case Some(d) => At(cfg, p, mi.typ, d.pointer, Dims(d)[mi.level..])
  {
    match mi.decl
    case None =>
      if mi.typ.TypeRef? {
        TypedefDeclared(cfg, mi.typ.typedef);
        EnterTypedef(cfg, StartPlace(mi).value, mi.typ.typedef.typ, mi.typ.typedef.decl);
      }
    case Some(d) =>
      assert Dims(d)[0..] == Dims(d);
      DividedIs(Dims(d), mi.level, ItemInfo(cfg.lp, mi.typ, d.pointer).item);
  }
}
