/**
 Looking up the expression printed for an offset gives the offset back.
 */
module MemberRoundTrip {
  import opened Bits
  import opened IntegerStrings
  import opened CTypes
  import opened Bitfields
  import opened Layout
  import opened LayoutSafety
  import opened Walker
  import opened MemberLookup
  import opened MemberStrings

  // ----- The types the claim is about -----

  ghost predicate DimsOk(d: Declarator) {
    d.ext.Array? ==> d.ext.dims != [] && forall i | 0 <= i < |d.ext.dims| :: d.ext.dims[i] > 0
  }

  /** No name is used twice, unnamed members' names included. */
  ghost predicate Distinct(s: Struct) {
    && (forall i, j, name: string | 0 <= i < j < |s.decls| && FindInDecl(s.decls[i], name).Some? ::
          FindInDecl(s.decls[j], name).None?)
    && forall sd | sd in s.decls :: forall i, j | 0 <= i < j < |sd.declarators| ::
          sd.declarators[i].name != sd.declarators[j].name
  }

  /** A type that an unnamed member may have. */
  ghost predicate Unnamed(t: TypeSpec) {
    match t
    case Compound(s) => true
    case TypeRef(td) => !td.decl.pointer && !td.decl.ext.Array? && Unnamed(td.typ)
    case _ => false
  }

  /** Every compound is defined, its members have distinct names, no bitfields, and positive dimensions. */
  ghost predicate Resolvable(t: TypeSpec) {
    match t
    case TypeRef(td) => td.decl.offset <= 0 && DimsOk(td.decl) && (!td.decl.pointer ==> Resolvable(td.typ))
    case Compound(s) => s.decls != [] && Distinct(s) && forall sd | sd in s.decls :: DeclResolvable(sd)
    case _ => true
  }

  ghost predicate DeclResolvable(sd: StructDecl) {
    && (sd.declarators == [] ==> Unnamed(sd.typ) && Resolvable(sd.typ))
    && forall d | d in sd.declarators ::
         IsName(d.name) && !d.ext.Bitfield? && DimsOk(d) && (!d.pointer ==> Resolvable(sd.typ))
  }

  lemma {:induction false} PlainMembers(s: Struct)
    requires Resolvable(Compound(s))
    ensures forall sd | sd in s.decls :: NoBitfields(sd)
  {
    forall sd | sd in s.decls
      ensures NoBitfields(sd)
    {
      assert DeclResolvable(sd);
    }
  }

  // ----- What the layout guarantees -----

  /** Offsets are set, declarators have their sizes, and unions start everything at their own start. */
  ghost predicate DeclLaid(lp: LayoutParam, isUnion: bool, sd: StructDecl)
    requires Sized(lp, sd.typ)
  {
    && (isUnion ==> sd.offset == 0)
    && (sd.declarators == [] ==> sd.offset >= 0)
    && forall d | d in sd.declarators :: d.offset >= 0 && d.size == TypeInfo(lp, sd.typ, d).size
  }

  lemma {:induction false} DeclaratorsLaid(c: Context, p: Progress, t: TypeSpec, ds: seq<Declarator>)
    requires ProgressOk(c, p) && DeclaratorsOk(c, t, ds)
    requires (forall d | d in ds :: !d.ext.Bitfield?) && PlaceDeclarators(c, p, t, ds).decls == ds
    ensures forall d | d in ds :: d.offset >= 0 && d.size == TypeInfo(c.lp, t, d).size
    ensures c.isUnion ==> PlaceDeclarators(c, p, t, ds).first == 0
  {
    if ds != [] {
      SplitDeclarators(c, p, t, ds);
      var q, d := PlaceDeclarators(c, p, t, ds[..|ds| - 1]), ds[|ds| - 1];
      DeclaratorsLaid(c, p, t, ds[..|ds| - 1]);
      assert PlaceDeclarator(c, q, t, d).decls[|q.decls|] == d;
    }
  }

  lemma {:induction false} OneDeclLaid(c: Context, p: Progress, sd: StructDecl)
    requires ProgressOk(c, p) && DeclOk(c, sd) && NoBitfields(sd) && PlaceDecl(c, p, sd).1 == sd
    ensures DeclLaid(c.lp, c.isUnion, sd)
  {
    if sd.declarators != [] {
      assert PlaceDeclarators(c, p, sd.typ, sd.declarators).decls == sd.declarators;
      DeclaratorsLaid(c, p, sd.typ, sd.declarators);
    }
  }

  lemma {:induction false} DeclsLaid(c: Context, p: Progress, decls: seq<StructDecl>)
    requires ProgressOk(c, p) && DeclsOk(c, decls) && PlaceDecls(c, p, decls).1 == decls
    requires forall sd | sd in decls :: NoBitfields(sd)
    ensures forall sd | sd in decls :: DeclLaid(c.lp, c.isUnion, sd)
  {
    if decls != [] {
      var q, sd := PlaceDecls(c, p, decls[..|decls| - 1]), decls[|decls| - 1];
      SplitDecls(c, p, decls);
      DeclsLaid(c, p, decls[..|decls| - 1]);
      OneDeclLaid(c, q.0, sd);
    }
  }

  lemma {:induction false} StructLaid(cfg: Config, s: Struct)
    requires Usable(cfg) && StructLaidOut(cfg, s) && forall sd | sd in s.decls :: NoBitfields(sd)
    ensures forall sd | sd in s.decls :: DeclLaid(cfg.lp, s.isUnion, sd)
  {
    DeclsLaid(ContextOf(cfg, s), Layout.Start(cfg, s), s.decls);
  }

  // ----- Following tokens -----

  function Resolve(flags: Flags, p: Place, ts: seq<Token>): Result
    decreases |ts|
  {
    if ts == [] then Found(p)
    else
      var r := Step(flags, p, WalkOf(ts[0]));
      if r.Failed? then r else Resolve(flags, r.place, ts[1..])
  }

  /** The tokens lead to offset n. */
  ghost predicate LeadsTo(flags: Flags, p: Place, ts: seq<Token>, n: int) {
    var r := Resolve(flags, p, ts);
    r.Found? && r.place.offset == n
  }

  lemma {:induction false} ResolveAppend(flags: Flags, p: Place, ts: seq<Token>, us: seq<Token>)
    ensures var r := Resolve(flags, p, ts);
      Resolve(flags, p, ts + us) == if r.Failed? then r else Resolve(flags, r.place, us)
    decreases |ts|
  {
    if ts == [] {
      assert ts + us == us;
    } else {
      assert (ts + us)[1..] == ts[1..] + us;
      var r := Step(flags, p, WalkOf(ts[0]));
      if r.Found? {
        ResolveAppend(flags, r.place, ts[1..], us);
      }
    }
  }

  lemma {:induction false} LookupIsResolve(flags: Flags, p: Place, u: string, startup: bool, ts: seq<Token>)
    requires Yields(u, startup, ts)
    ensures Lookup(flags, p, u, startup) == Resolve(flags.(acceptDotless := false), p, ts)
    decreases |ts|
  {
    var (w, rest) := ReadToken(u, startup);
    if ts != [] {
      var r := Step(flags, p, w);
      assert r == Step(flags.(acceptDotless := false), p, w);
      if r.Found? {
        LookupIsResolve(flags.(acceptDotless := false), r.place, rest, startup && ts[0].Off?, ts[1..]);
      }
    }
  }

  // ----- Arrays -----

  /** One division of a size by a dimension is exact, and indices stay in bounds. */
  lemma SizeSplits(n: nat, part: nat, whole: nat, off: nat)
    requires n > 0 && whole == part * n && off < whole
    ensures part > 0 && whole / n == part && off / part < n
    ensures 0 <= off - off / part * part < part
  {
    assert 0 * n == 0;
    DivModUnique(whole, n, part, 0);
    assert n * part == part * n;
    DivBelow(off, n, part);
    DivMod(off, part);
  }

  lemma ProductParts(item: nat, n: nat, rest: nat)
    ensures item * (n * rest) == item * rest * n
  {
  }

  /** A place in the middle of an array declarator. */
  ghost predicate InArray(p: Place, d: Declarator, item: nat) {
    && p.decl == Some(d) && DimsOk(d) && p.level <= |Dims(d)|
    && p.size == item * Product(Dims(d)[p.level..])
  }

  /** The first index: what is printed for it, and where it leads. */
  lemma {:induction false} IndexLeads(flags: Flags, p: Place, d: Declarator, part: nat, off: nat)
    returns (index: nat, rest: nat)
    requires p.decl == Some(d) && p.level < |Dims(d)| && Dims(d)[p.level] > 0
    requires off < p.size == part * Dims(d)[p.level]
    ensures rest < part && rest <= off
    ensures Step(flags, p, ArrayIndex(index))
        == Found(p.(level := p.level + 1, size := part, offset := p.offset + (off - rest)))
    ensures var r := Indices(Dims(d)[p.level + 1..], part, rest);
      Indices(Dims(d)[p.level..], p.size, off) == if r.None? then None else Some(([Ix(index)] + r.value.0, r.value.1))
  {
    SizeSplits(Dims(d)[p.level], part, p.size, off);
    index, rest := off / part, off - off / part * part;
    assert Dims(d)[p.level..][1..] == Dims(d)[p.level + 1..];
  }

  lemma {:induction false} IndicesLead(flags: Flags, p: Place, d: Declarator, item: nat, off: nat)
    requires InArray(p, d, item) && p.size > off
    ensures var r := Indices(Dims(d)[p.level..], p.size, off);
      && r.Some? && r.value.1 < item && r.value.1 <= off
      && var end := p.(level := |Dims(d)|, size := item, offset := p.offset + (off - r.value.1));
      Resolve(flags, p, r.value.0) == Found(end)
    decreases |Dims(d)| - p.level
  {
    var dims := Dims(d)[p.level..];
    if dims == [] {
      assert p.level == |Dims(d)|;
    } else {
      assert dims[1..] == Dims(d)[p.level + 1..];
      var part := item * Product(dims[1..]);
      ProductParts(item, dims[0], Product(dims[1..]));
      var index, rest := IndexLeads(flags, p, d, part, off);
      IndicesLead(flags, p.(level := p.level + 1, size := part, offset := p.offset + (off - rest)), d, item, rest);
      assert forall ts: seq<Token> :: ([Ix(index)] + ts)[1..] == ts;
    }
  }

  // ----- Matches that lead back -----

  /** A real match whose tokens can be printed and lead to offset n. */
  ghost predicate Good(flags: Flags, p: Place, m: Match, n: int) {
    m.rank != NoMatch && m.rank != Fatal && Printable(m.tokens) && LeadsTo(flags, p, m.tokens, n)
  }

  ghost predicate AllIx(ts: seq<Token>) {
    forall i | 0 <= i < |ts| :: ts[i].Ix?
  }

  lemma {:induction false} IndicesAreIx(dims: seq<nat>, size: nat, off: nat)
    ensures var r := Indices(dims, size, off); r.Some? ==> AllIx(r.value.0)
    decreases |dims|
  {
    if dims != [] && dims[0] != 0 && size / dims[0] != 0 {
      var item := size / dims[0];
      DivMod(off, item);
      IndicesAreIx(dims[1..], item, off - off / item * item);
    }
  }

  lemma {:induction false} JoinLeads(flags: Flags, p: Place, q: Place, ts: seq<Token>, m: Match, n: int)
    requires Resolve(flags, p, ts) == Found(q) && AllIx(ts) && Good(flags, q, m, n)
    ensures Good(flags, p, After(ts, m), n)
  {
    ResolveAppend(flags, p, ts, m.tokens);
    var us := ts + m.tokens;
    assert forall i | |ts| <= i < |us| :: us[i] == m.tokens[i - |ts|];
  }

  /** Looking into the typedef first makes no difference. */
  lemma {:induction false} SettledLeads(flags: Flags, p: Place, ts: seq<Token>, n: int)
    requires Settled(Settled(p)) == Settled(p) && LeadsTo(flags, Settled(p), ts, n)
    ensures LeadsTo(flags, p, ts, n)
  {
  }

  lemma {:induction false} OffsetLeads(flags: Flags, p: Place, k: nat, rank: Rank)
    requires !flags.rejectOffset && rank != NoMatch && rank != Fatal
    ensures Good(flags, p, Match(rank, [Off(k)]), p.offset + k)
  {
    assert [Off(k)][1..] == [];
  }

  // ----- Declarators and typedefs -----

  ghost predicate Declared(cfg: Config, t: TypeSpec, d: Declarator)
    requires Usable(cfg)
  {
    && LaidOut(cfg, t) && d.size == TypeInfo(cfg.lp, t, d).size
    && DimsOk(d) && !d.ext.Bitfield? && (!d.pointer ==> Resolvable(t))
  }

  lemma {:induction false} Known(lp: LayoutParam, t: TypeSpec, pointer: bool)
    requires Sized(lp, t) && (!pointer ==> Resolvable(t))
    ensures ItemInfo(lp, t, pointer).known
    decreases t
  {
    if !pointer && t.TypeRef? {
      Known(lp, t.typedef.typ, t.typedef.decl.pointer);
    }
  }

  lemma {:induction false} TypedefDeclared(cfg: Config, td: Typedef)
    requires Usable(cfg) && LaidOut(cfg, TypeRef(td)) && Resolvable(TypeRef(td))
    ensures Declared(cfg, td.typ, td.decl)
  {
    Known(cfg.lp, td.typ, td.decl.pointer);
  }

  lemma {:induction false} FollowKeeps(cfg: Config, t: TypeSpec, d: Declarator, off: nat)
    requires Usable(cfg) && Declared(cfg, t, d)
    ensures var (t', d') := Follow(t, d);
      && Declared(cfg, t', d') && d'.size == d.size && Onward(t, d, off) == Along(t', d', off)
      && (d'.pointer || !t'.TypeRef? || d'.ext.Array?)
    decreases t
  {
    if !d.pointer && t.TypeRef? && !d.ext.Array? {
      var td := t.typedef;
      assert Product(Dims(d)) == 1;
      assert TypeInfo(cfg.lp, t, d).size == ItemInfo(cfg.lp, t, false).item;
      TypedefDeclared(cfg, td);
      assert d.size == td.decl.size;
      FollowKeeps(cfg, td.typ, td.decl, off);
    }
  }

  /** A place at the start of a declarator. */
  ghost predicate Entering(p: Place, t: TypeSpec, d: Declarator) {
    p.typ == t && p.decl == Some(d) && p.level == 0 && p.size == d.size
  }

  /** A place where all dimensions are indexed, or that has no declarator. */
  ghost predicate AtItem(p: Place, t: TypeSpec, pointer: bool) {
    && p.typ == t && Settled(p) == p
    && match p.decl case None => !pointer case Some(d) => p.level == |Dims(d)| && d.pointer == pointer
  }

  lemma {:induction false} AlongLeads(cfg: Config, flags: Flags, p: Place, t: TypeSpec, d: Declarator, off: nat)
    requires Usable(cfg) && Declared(cfg, t, d) && Entering(p, t, d) && off < d.size && !flags.rejectOffset
    ensures Good(flags, p, Along(t, d, off), p.offset + off)
    decreases t, 3
  {
    var item := ItemInfo(cfg.lp, t, d.pointer).item;
    assert Dims(d)[0..] == Dims(d);
    IndicesLead(flags, p, d, item, off);
    IndicesAreIx(Dims(d), d.size, off);
    var r := Indices(Dims(d), d.size, off).value;
    var q := p.(level := |Dims(d)|, size := item, offset := p.offset + (off - r.1));
    if d.pointer || !t.TypeRef? {
      LeafLeads(cfg, flags, q, t, d.pointer, r.1);
      JoinLeads(flags, p, q, r.0, LeafMatch(t, d.pointer, r.1), p.offset + off);
    } else {
      TypedefLeads(cfg, flags, q, t, d, r.1);
      JoinLeads(flags, p, q, r.0, Onward(t.typedef.typ, t.typedef.decl, r.1), p.offset + off);
    }
  }

  /** From an item of a typedef'd type on. */
  lemma {:induction false} TypedefLeads(cfg: Config, flags: Flags, q: Place, t: TypeSpec, d: Declarator, off: nat)
    requires Usable(cfg) && LaidOut(cfg, t) && Resolvable(t) && t.TypeRef? && !flags.rejectOffset
    requires q.typ == t && q.decl == Some(d) && !d.pointer && q.level == |Dims(d)|
    requires off < ItemInfo(cfg.lp, t, false).item
    ensures Good(flags, q, Onward(t.typedef.typ, t.typedef.decl, off), q.offset + off)
    decreases t, 2
  {
    var td := t.typedef;
    TypedefDeclared(cfg, td);
    FollowKeeps(cfg, td.typ, td.decl, off);
    var (t', d') := Follow(td.typ, td.decl);
    var next := Settled(q);
    assert Entering(next, t', d') && Settled(next) == next;
    AlongLeads(cfg, flags, next, t', d', off);
    SettledLeads(flags, q, Along(t', d', off).tokens, q.offset + off);
  }

  lemma {:induction false} LeafLeads(cfg: Config, flags: Flags, p: Place, t: TypeSpec, pointer: bool, off: nat)
    requires Usable(cfg) && AtItem(p, t, pointer) && LaidOut(cfg, t) && !flags.rejectOffset
    requires !pointer ==> Resolvable(t)
    ensures Good(flags, p, LeafMatch(t, pointer, off), p.offset + off)
    decreases t, 2
  {
    if !pointer && t.Compound? {
      InsideSelf(t.body);
      StructLeads(cfg, flags, p, t.body, t.body, 0, off);
    } else if off > 0 {
      OffsetLeads(flags, p, off, HitOffset);
    }
  }

  // ----- Members are found by their names -----

  function Shifted(h: Located, n: int): Located {
    h.(offset := n + h.offset)
  }

  /** Whatever is found in s, is found in top too, delta bytes further on. */
  ghost predicate Inside(top: Struct, s: Struct, delta: nat) {
    forall name: string | FindMember(s, name).Some? ::
      FindMember(top, name) == Some(Shifted(FindMember(s, name).value, delta))
  }

  ghost predicate InsideDecl(top: Struct, sd: StructDecl, delta: nat) {
    forall name: string | FindInDecl(sd, name).Some? ::
      FindMember(top, name) == Some(Shifted(FindInDecl(sd, name).value, delta))
  }

  lemma {:induction false} InsideSelf(s: Struct)
    ensures Inside(s, s, 0)
  {
  }

  lemma {:induction false} UnnamedOffset(t: TypeSpec, name: string)
    ensures var h := FindUnnamed(t, name); h.Some? ==> h.value.offset >= 0
    decreases t
  {
    if t.TypeRef? {
      UnnamedOffset(t.typedef.typ, name);
    }
  }

  lemma {:induction false} FoundOffset(lp: LayoutParam, isUnion: bool, sd: StructDecl, name: string)
    requires Sized(lp, sd.typ) && DeclLaid(lp, isUnion, sd)
    ensures var h := FindInDecl(sd, name); h.Some? ==> h.value.offset >= 0
  {
    if sd.declarators == [] {
      UnnamedOffset(sd.typ, name);
    } else {
      FoundDeclarator(sd.declarators, name);
    }
  }

  lemma {:induction false} FoundDeclarator(ds: seq<Declarator>, name: string)
    ensures var d := FindDeclarator(ds, name); d.Some? ==> d.value in ds && d.value.name == name
  {
    if ds != [] {
      FoundDeclarator(ds[1..], name);
    }
  }

  lemma {:induction false} FirstFound(decls: seq<StructDecl>, k: nat, name: string)
    requires k < |decls| && FindInDecl(decls[k], name).Some?
    requires forall i | 0 <= i < k :: FindInDecl(decls[i], name).None?
    ensures FindInDecls(decls, name) == FindInDecl(decls[k], name)
    decreases k
  {
    if k > 0 {
      assert FindInDecl(decls[0], name).None?;
      FirstFound(decls[1..], k - 1, name);
    }
  }

  lemma {:induction false} DeclaratorFound(ds: seq<Declarator>, k: nat)
    requires k < |ds| && forall i, j | 0 <= i < j < |ds| :: ds[i].name != ds[j].name
    ensures FindDeclarator(ds, ds[k].name) == Some(ds[k])
    decreases k
  {
    if k > 0 {
      assert ds[0].name != ds[k].name;
      DeclaratorFound(ds[1..], k - 1);
    }
  }

  lemma {:induction false} InsideMember(lp: LayoutParam, top: Struct, s: Struct, delta: nat, k: nat)
    requires Inside(top, s, delta) && Distinct(s) && k < |s.decls|
    requires Sized(lp, s.decls[k].typ) && DeclLaid(lp, s.isUnion, s.decls[k])
    ensures InsideDecl(top, s.decls[k], delta)
  {
    var sd := s.decls[k];
    forall name: string | FindInDecl(sd, name).Some?
      ensures FindMember(top, name) == Some(Shifted(FindInDecl(sd, name).value, delta))
    {
      FirstFound(s.decls, k, name);
      FoundOffset(lp, s.isUnion, sd, name);
    }
  }

  // ----- Structs and unions -----

  /** The match for a byte of s, delta bytes into top, is relative to top. */
  lemma {:induction false} StructLeads(cfg: Config, flags: Flags, p: Place, top: Struct, s: Struct, delta: nat,
                                       off: nat)
    requires Usable(cfg) && AtItem(p, Compound(top), false) && Inside(top, s, delta) && !flags.rejectOffset
    requires s.decls != [] && StructLaidOut(cfg, s) && Resolvable(Compound(s))
    ensures Good(flags, p, StructMatch(s, off, delta + off), p.offset + delta + off)
    decreases s, 1
  {
    OffsetLeads(flags, p, delta + off, Padding);
    PlainMembers(s);
    StructLaid(cfg, s);
    assert s.decls[0..] == s.decls;
    DeclsLead(cfg, flags, p, top, s, delta, off, 0, None);
  }

  /** The best match so far leads where it should. */
  ghost predicate BestGood(flags: Flags, p: Place, best: Option<Match>, n: int) {
    best.Some? ==> Good(flags, p, best.value, n)
  }

  ghost predicate SearchGood(flags: Flags, p: Place, search: Search, n: int) {
    match search case Done(m) => Good(flags, p, m, n) case Go(best) => BestGood(flags, p, best, n)
  }

  lemma {:induction false} TriedGood(flags: Flags, p: Place, isUnion: bool, best: Option<Match>, m: Match, n: int)
    requires BestGood(flags, p, best, n) && Good(flags, p, m, n)
    ensures SearchGood(flags, p, Tried(isUnion, best, m), n)
  {
  }

  lemma {:induction false} DeclsLead(cfg: Config, flags: Flags, p: Place, top: Struct, s: Struct, delta: nat, off: nat,
                                     k: nat, best: Option<Match>)
    requires Usable(cfg) && AtItem(p, Compound(top), false) && Inside(top, s, delta) && !flags.rejectOffset
    requires s.decls != [] && StructLaidOut(cfg, s) && Resolvable(Compound(s))
    requires forall sd | sd in s.decls :: DeclLaid(cfg.lp, s.isUnion, sd)
    requires k <= |s.decls| && BestGood(flags, p, best, p.offset + delta + off)
    ensures SearchGood(flags, p, DeclsMatch(s.isUnion, s.decls[k..], off, delta + off, best), p.offset + delta + off)
    decreases s, 0, |s.decls| - k
  {
    if k < |s.decls| {
      var sd := s.decls[k];
      assert s.decls[k..][0] == sd && s.decls[k..][1..] == s.decls[k + 1..];
      assert DeclResolvable(sd);
      InsideMember(cfg.lp, top, s, delta, k);
      DeclLeads(cfg, flags, p, top, s.isUnion, sd, delta, off, best);
      var r := DeclMatch(s.isUnion, sd, off, delta + off, best);
      if r.Go? {
        DeclsLead(cfg, flags, p, top, s, delta, off, k + 1, r.best);
      }
    }
  }

  lemma {:induction false} DeclLeads(cfg: Config, flags: Flags, p: Place, top: Struct, isUnion: bool, sd: StructDecl,
                                     delta: nat, off: nat, best: Option<Match>)
    requires Usable(cfg) && AtItem(p, Compound(top), false) && InsideDecl(top, sd, delta) && !flags.rejectOffset
    requires LaidOut(cfg, sd.typ) && DeclLaid(cfg.lp, isUnion, sd) && DeclResolvable(sd)
    requires DistinctNames(sd.declarators)
    requires BestGood(flags, p, best, p.offset + delta + off)
    ensures SearchGood(flags, p, DeclMatch(isUnion, sd, off, delta + off, best), p.offset + delta + off)
    decreases sd, 1
  {
    if sd.declarators != [] {
      OffsetLeads(flags, p, delta + off, Padding);
      assert sd.declarators[0..] == sd.declarators;
      DeclaratorsLead(cfg, flags, p, top, isUnion, sd, delta, off, 0, best);
    } else {
      UnnamedDeclLeads(cfg, flags, p, top, isUnion, sd, delta, off, delta + off, p.offset + delta + off, best);
    }
  }

  lemma {:induction false} UnnamedDeclLeads(cfg: Config, flags: Flags, p: Place, top: Struct, isUnion: bool,
                                            sd: StructDecl, delta: nat, off: nat, whole: nat, n: int,
                                            best: Option<Match>)
    requires Usable(cfg) && AtItem(p, Compound(top), false) && InsideDecl(top, sd, delta) && !flags.rejectOffset
    requires LaidOut(cfg, sd.typ) && DeclLaid(cfg.lp, isUnion, sd) && DeclResolvable(sd) && sd.declarators == []
    requires BestGood(flags, p, best, n) && whole == delta + off && n == p.offset + whole
    ensures SearchGood(flags, p, DeclMatch(isUnion, sd, off, whole, best), n)
    decreases sd, 0
  {
    if sd.offset <= off {
      InsideUnnamed(top, sd, delta);
      UnnamedLeads(cfg, flags, p, top, sd.typ, delta + sd.offset, off - sd.offset, whole);
    }
    UnnamedTried(flags, p, isUnion, sd, off, whole, n, best);
  }

  lemma {:induction false} UnnamedTried(flags: Flags, p: Place, isUnion: bool, sd: StructDecl, off: nat, whole: nat,
                                        n: int, best: Option<Match>)
    requires sd.declarators == [] && sd.offset >= 0 && (isUnion ==> sd.offset == 0) && !flags.rejectOffset
    requires BestGood(flags, p, best, n) && n == p.offset + whole
    requires sd.offset <= off ==> Good(flags, p, UnnamedMatch(sd.typ, off - sd.offset, whole), n)
    ensures SearchGood(flags, p, DeclMatch(isUnion, sd, off, whole, best), n)
  {
    OffsetLeads(flags, p, whole, Padding);
    if sd.offset <= off {
      TriedGood(flags, p, true, best, UnnamedMatch(sd.typ, off - sd.offset, whole), n);
    }
  }

  ghost predicate DistinctNames(ds: seq<Declarator>) {
    forall i, j | 0 <= i < j < |ds| :: ds[i].name != ds[j].name
  }

  ghost predicate InsideType(top: Struct, t: TypeSpec, delta: nat) {
    forall name: string | FindUnnamed(t, name).Some? ::
      FindMember(top, name) == Some(Shifted(FindUnnamed(t, name).value, delta))
  }

  lemma {:induction false} InsideUnnamed(top: Struct, sd: StructDecl, delta: nat)
    requires InsideDecl(top, sd, delta) && sd.declarators == [] && sd.offset >= 0
    ensures InsideType(top, sd.typ, delta + sd.offset)
  {
    forall name: string | FindUnnamed(sd.typ, name).Some?
      ensures FindMember(top, name) == Some(Shifted(FindUnnamed(sd.typ, name).value, delta + sd.offset))
    {
      assert FindInDecl(sd, name).Some?;
    }
  }

  lemma {:induction false} UnnamedLeads(cfg: Config, flags: Flags, p: Place, top: Struct, t: TypeSpec, delta: nat,
                                        off: nat, whole: nat)
    requires Usable(cfg) && AtItem(p, Compound(top), false) && InsideType(top, t, delta) && !flags.rejectOffset
    requires LaidOut(cfg, t) && Unnamed(t) && Resolvable(t) && whole == delta + off
    ensures Good(flags, p, UnnamedMatch(t, off, whole), p.offset + whole)
    decreases t, 2
  {
    match t
    case Compound(s) =>
      forall name: string | FindMember(s, name).Some?
        ensures FindMember(top, name) == Some(Shifted(FindMember(s, name).value, delta))
      {
        assert FindUnnamed(t, name) == FindMember(s, name);
      }
      StructLeads(cfg, flags, p, top, s, delta, off);
    case TypeRef(td) =>
      forall name: string | FindUnnamed(td.typ, name).Some?
        ensures FindMember(top, name) == Some(Shifted(FindUnnamed(td.typ, name).value, delta))
      {
        assert FindUnnamed(t, name) == FindUnnamed(td.typ, name);
      }
      UnnamedLeads(cfg, flags, p, top, td.typ, delta, off, whole);
    case _ =>
  }

  lemma {:induction false} DeclaratorsLead(cfg: Config, flags: Flags, p: Place, top: Struct, isUnion: bool,
                                           sd: StructDecl, delta: nat, off: nat, k: nat, best: Option<Match>)
    requires Usable(cfg) && AtItem(p, Compound(top), false) && InsideDecl(top, sd, delta) && !flags.rejectOffset
    requires LaidOut(cfg, sd.typ) && DeclLaid(cfg.lp, isUnion, sd) && DeclResolvable(sd)
    requires DistinctNames(sd.declarators)
    requires k <= |sd.declarators| && BestGood(flags, p, best, p.offset + delta + off)
    ensures var r := DeclaratorsMatch(isUnion, sd.typ, sd.declarators[k..], off, delta + off, best);
      SearchGood(flags, p, r, p.offset + delta + off)
    decreases sd.typ, 6, |sd.declarators| - k
  {
    var ds := sd.declarators;
    if k < |ds| {
      var n := p.offset + delta + off;
      assert ds[k..][0] == ds[k] && ds[k..][1..] == ds[k + 1..];
      OffsetLeads(flags, p, delta + off, Padding);
      if ds[k].offset <= off {
        var r := Go(best);
        if off < ds[k].offset + ds[k].size {
          MemberLeads(cfg, flags, p, top, sd, k, delta, off);
          TriedGood(flags, p, isUnion, best, MemberMatch(sd.typ, Some(ds[k]), off), n);
          r := Tried(isUnion, best, MemberMatch(sd.typ, Some(ds[k]), off));
        }
        if r.Go? {
          DeclaratorsLead(cfg, flags, p, top, isUnion, sd, delta, off, k + 1, r.best);
        }
      }
    }
  }

  lemma {:induction false} MatchOfMember(t: TypeSpec, d: Declarator, off: nat)
    requires 0 <= d.offset <= off && d.name != []
    ensures MemberMatch(t, Some(d), off) == After([Id(d.name)], Along(t, d, off - d.offset))
  {
  }

  lemma {:induction false} NameFound(p: Place, top: Struct, sd: StructDecl, k: nat, delta: nat)
    requires AtItem(p, Compound(top), false) && InsideDecl(top, sd, delta)
    requires DistinctNames(sd.declarators) && k < |sd.declarators|
    ensures var d := sd.declarators[k];
      MemberStep(p, d.name) == Found(Place(sd.typ, Some(d), 0, d.size, p.offset + delta + d.offset))
  {
    DeclaratorFound(sd.declarators, k);
    var d := sd.declarators[k];
    assert FindInDecl(sd, d.name) == Some(Located(sd.typ, d, d.offset));
  }

  /** A named member: its name leads to it, and the rest of the match on from there. */
  lemma {:induction false} MemberLeads(cfg: Config, flags: Flags, p: Place, top: Struct, sd: StructDecl, k: nat,
                                       delta: nat, off: nat)
    requires Usable(cfg) && AtItem(p, Compound(top), false) && InsideDecl(top, sd, delta) && !flags.rejectOffset
    requires LaidOut(cfg, sd.typ) && DeclResolvable(sd) && DistinctNames(sd.declarators) && k < |sd.declarators|
    requires var d := sd.declarators[k];
      d.offset >= 0 && d.size == TypeInfo(cfg.lp, sd.typ, d).size && d.offset <= off < d.offset + d.size
    ensures Good(flags, p, MemberMatch(sd.typ, Some(sd.declarators[k]), off), p.offset + delta + off)
    decreases sd.typ, 5
  {
    var d := sd.declarators[k];
    var q := Place(sd.typ, Some(d), 0, d.size, p.offset + delta + d.offset);
    NameFound(p, top, sd, k, delta);
    assert Declared(cfg, sd.typ, d);
    MatchOfMember(sd.typ, d, off);
    AlongLeads(cfg, flags, q, sd.typ, d, off - d.offset);
    NameLeads(flags, p, q, d.name, Along(sd.typ, d, off - d.offset), q.offset + (off - d.offset),
              p.offset + delta + off);
  }

  lemma {:induction false} NameLeads(flags: Flags, p: Place, q: Place, name: string, m: Match, n: int, n': int)
    requires Settled(p) == p && MemberStep(p, name) == Found(q) && IsName(name) && Good(flags, q, m, n) && n == n'
    ensures Good(flags, p, After([Id(name)], m), n')
  {
    var ts := [Id(name)] + m.tokens;
    assert ts[1..] == m.tokens;
  }

  // ----- The round trip -----

  /** A laid-out type, or a declarator of it that is no pointer, with some dimensions indexed. */
  ghost predicate InfoOk(cfg: Config, mi: MemberInfo)
    requires Usable(cfg)
  {
    && LaidOut(cfg, mi.typ) && Resolvable(mi.typ)
    && var item := ItemInfo(cfg.lp, mi.typ, false).item;
    match mi.decl
    case None => mi.level == 0 && mi.size == item
    case Some(d) =>
      && Declared(cfg, mi.typ, d) && !d.pointer && mi.level <= |Dims(d)|
      && mi.size == item * Product(Dims(d)[mi.level..])
  }

  /** Dividing by the dimensions already indexed gives the size of what is left. */
  lemma {:induction false} DividedIs(dims: seq<nat>, level: nat, item: nat)
    requires level <= |dims| && forall i | 0 <= i < |dims| :: dims[i] > 0
    ensures Divided(item * Product(dims), dims[..level]) == Some(item * Product(dims[level..]))
    decreases level
  {
    if level == 0 {
      assert dims[0..] == dims;
    } else {
      var part := item * Product(dims[1..]);
      ProductParts(item, dims[0], Product(dims[1..]));
      DivModUnique(item * Product(dims), dims[0], part, 0);
      DividedIs(dims[1..], level - 1, item);
      assert dims[1..][level - 1..] == dims[level..] && dims[..level][1..] == dims[1..][..level - 1];
    }
  }

  lemma {:induction false} TypeLeads(cfg: Config, flags: Flags, mi: MemberInfo, off: nat)
    requires Usable(cfg) && InfoOk(cfg, mi) && mi.decl.None? && off < mi.size && !flags.rejectOffset
    ensures StartPlace(mi).Some? && Good(flags, StartPlace(mi).value, InfoMatch(mi, off), off)
  {
    var p := StartPlace(mi).value;
    match mi.typ
    case TypeRef(td) =>
      TypedefDeclared(cfg, td);
      AlongLeads(cfg, flags, p, td.typ, td.decl, off);
    case _ => LeafLeads(cfg, flags, p, mi.typ, false, off);
  }

  /** From a place where all dimensions are indexed. */
  lemma {:induction false} ItemLeads(cfg: Config, flags: Flags, q: Place, t: TypeSpec, d: Declarator, off: nat)
    requires Usable(cfg) && LaidOut(cfg, t) && Resolvable(t) && !d.pointer && !flags.rejectOffset
    requires q.typ == t && q.decl == Some(d) && q.level == |Dims(d)| && off < ItemInfo(cfg.lp, t, false).item
    ensures Good(flags, q, MemberMatch(t, None, off), q.offset + off)
  {
    TypeMatchIs(t, off);
    if t.TypeRef? {
      TypedefLeads(cfg, flags, q, t, d, off);
      TypedefDeclared(cfg, t.typedef);
      OnwardIsAlong(cfg, t.typedef.typ, t.typedef.decl, off);
    } else {
      LeafLeads(cfg, flags, q, t, false, off);
    }
  }

  lemma {:induction false} TypeMatchIs(t: TypeSpec, off: nat)
    requires Resolvable(t)
    ensures MemberMatch(t, None, off) ==
      if t.TypeRef? then Along(t.typedef.typ, t.typedef.decl, off) else LeafMatch(t, false, off)
  {
  }

  /** A typedef that adds nothing prints nothing. */
  lemma {:induction false} OnwardIsAlong(cfg: Config, t: TypeSpec, d: Declarator, off: nat)
    requires Usable(cfg) && Declared(cfg, t, d)
    ensures Onward(t, d, off) == Along(t, d, off)
    decreases t
  {
    if !d.pointer && t.TypeRef? && !d.ext.Array? {
      WithoutHead(Onward(t.typedef.typ, t.typedef.decl, off));
    }
  }

  lemma {:induction false} DeclaratorLeads(cfg: Config, flags: Flags, mi: MemberInfo, d: Declarator, off: nat)
    requires Usable(cfg) && InfoOk(cfg, mi) && mi.decl == Some(d) && off < mi.size && !flags.rejectOffset
    ensures StartPlace(mi).Some? && Good(flags, StartPlace(mi).value, InfoMatch(mi, off), off)
  {
    var item := ItemInfo(cfg.lp, mi.typ, false).item;
    var dims := Dims(d);
    DividedIs(dims, mi.level, item);
    assert mi.level == 0 ==> dims[0..] == dims;
    var p := StartPlace(mi).value;
    assert InArray(p, d, item);
    if mi.level < |dims| {
      IndicesLead(flags, p, d, item, off);
      IndicesAreIx(dims[mi.level..], mi.size, off);
      var r := Indices(dims[mi.level..], mi.size, off).value;
      var q := p.(level := |dims|, size := item, offset := off - r.1);
      ItemLeads(cfg, flags, q, mi.typ, d, r.1);
      JoinLeads(flags, p, q, r.0, MemberMatch(mi.typ, None, r.1), off);
    } else {
      assert Product(dims[mi.level..]) == 1;
      ItemLeads(cfg, flags, p, mi.typ, d, off);
    }
  }

  /**
   For every laid-out type and every byte of it, an expression is printed, and looking that
   expression up gives the byte's offset back: through arrays, typedef chains, unnamed members,
   the ranking of union alternatives, and padding.
   */
  lemma {:induction false} RoundTrip(cfg: Config, flags: Flags, mi: MemberInfo, off: nat)
    requires Usable(cfg) && InfoOk(cfg, mi) && off < mi.size && !flags.rejectOffset
    ensures var m := InfoMatch(mi, off);
      && m.rank != NoMatch && m.rank != Fatal
      && var r := MemberAt(flags, mi, PrintAll(m.tokens));
      r.Found? && r.place.offset == off
  {
    var m, flags' := InfoMatch(mi, off), flags.(acceptDotless := false);
    match mi.decl {
      case None => TypeLeads(cfg, flags', mi, off);
      case Some(d) => DeclaratorLeads(cfg, flags', mi, d, off);
    }
    WalkPrinted(m.tokens, true);
    LookupIsResolve(flags, StartPlace(mi).value, PrintAll(m.tokens), true, m.tokens);
  }
}
