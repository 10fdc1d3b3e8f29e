/**
 From a member expression back to an offset: the tokens of the expression are followed through
 compounds, arrays and typedefs, adding up offsets on the way.
 */
module MemberLookup {
  import opened CTypes
  import opened Walker

  datatype Flags = Flags(acceptDotless: bool, rejectOutOfBounds: bool, rejectOffset: bool)

  datatype Failure =
    | WalkFailed(w: Walk)
    | Dotless(c: char)
    | MemberOfArray | MemberOfPointer | MemberOfBasic
    | NoSuchMember
    | NotAnArray
    | TooManyIndices
    | NegativeIndex(n: int)
    | IndexTooLarge(n: int)
    | OffsetRejected
    | Crash

  /** Where the expression read so far leads: a type and declarator, of which `level` dimensions
      have been indexed, and the size and offset of what is left. */
  datatype Place = Place(typ: TypeSpec, decl: Option<Declarator>, level: nat, size: int, offset: int)

  datatype Result = Found(place: Place) | Failed(failure: Failure)

  // ----- Members by name -----

  /** A member's type and declarator, and its offset in the compound that was searched. */
  datatype Located = Located(typ: TypeSpec, decl: Declarator, offset: int)

  function FindDeclarator(ds: seq<Declarator>, name: string): Option<Declarator> {
    if ds == [] then None else if ds[0].name == name then Some(ds[0]) else FindDeclarator(ds[1..], name)
  }

  function Clamped(h: Located): Located {
    if h.offset < 0 then h.(offset := 0) else h
  }

  /** `search_struct_member`: the first member of that name, unnamed members included. */
  function FindMember(s: Struct, name: string): Option<Located>
    decreases s
  {
    var h := FindInDecls(s.decls, name);
    if h.None? then None else Some(Clamped(h.value))
  }

  function FindInDecls(decls: seq<StructDecl>, name: string): Option<Located>
    decreases decls
  {
    if decls == [] then None
    else
      var h := FindInDecl(decls[0], name);
      if h.Some? then h else FindInDecls(decls[1..], name)
  }

  function FindInDecl(sd: StructDecl, name: string): Option<Located>
    decreases sd
  {
    if sd.declarators != [] then
      var d := FindDeclarator(sd.declarators, name);
      if d.None? then None else Some(Located(sd.typ, d.value, d.value.offset))
    else
      var h := FindUnnamed(sd.typ, name);
      if h.None? then None else Some(h.value.(offset := sd.offset + h.value.offset))
  }

  function FindUnnamed(t: TypeSpec, name: string): Option<Located>
    decreases t, 0
  {
    match t
    case Compound(s) => FindMember(s, name)
    case TypeRef(td) => if td.decl.pointer || td.decl.ext.Array? then None else FindUnnamed(td.typ, name)
    case _ => None
  }

  // ----- One token -----

  /** On through typedefs that add neither a pointer nor an array. */
  function Follow(t: TypeSpec, d: Declarator): (r: (TypeSpec, Declarator))
    ensures r.0 == t || r.0 < t
    decreases t
  {
    if !d.pointer && t.TypeRef? && !d.ext.Array? then Follow(t.typedef.typ, t.typedef.decl) else (t, d)
  }

  /** When all dimensions of a typedef'd declarator are used up, the typedef is looked into. */
  function Settled(p: Place): Place {
    if p.decl.Some? && !p.decl.value.pointer && p.typ.TypeRef? && p.level == |Dims(p.decl.value)| then
      var (t, d) := Follow(p.typ.typedef.typ, p.typ.typedef.decl);
      p.(typ := t, decl := Some(d), level := 0, size := d.size)
    else p
  }

  function MemberStep(p: Place, name: string): Result {
    if p.decl.Some? && p.level < |Dims(p.decl.value)| then Failed(MemberOfArray)
    else if p.decl.Some? && p.decl.value.pointer then Failed(MemberOfPointer)
    else if !p.typ.Compound? then Failed(MemberOfBasic)
    else
      var h := FindMember(p.typ.body, name);
      if h.None? then Failed(NoSuchMember)
      else Found(Place(h.value.typ, Some(h.value.decl), 0, h.value.decl.size, p.offset + h.value.offset))
  }

  function IndexStep(flags: Flags, p: Place, n: int): Result {
    if p.decl.None? || (p.level == 0 && !p.decl.value.ext.Array?) then Failed(NotAnArray)
    else
      var dims := Dims(p.decl.value);
      if p.level >= |dims| then Failed(TooManyIndices)
      else if flags.rejectOutOfBounds && n < 0 then Failed(NegativeIndex(n))
      else if flags.rejectOutOfBounds && n >= dims[p.level] then Failed(IndexTooLarge(n))
      else if p.size < 0 || dims[p.level] == 0 then Failed(Crash)
      else
        var size := p.size / dims[p.level];
        Found(p.(level := p.level + 1, size := size, offset := p.offset + n * size))
  }

  /** What one token does to a place. */
  function Step(flags: Flags, p: Place, w: Walk): Result {
    var q := Settled(p);
    match w
    case CompoundMember(name, hasDot) =>
      if !flags.acceptDotless && !hasDot then Failed(Dotless(Head(name))) else MemberStep(q, name)
    case ArrayIndex(n) => IndexStep(flags, q, n)
    case OffsetBy(n) => if flags.rejectOffset then Failed(OffsetRejected) else Found(q.(offset := q.offset + n))
    case _ => Failed(WalkFailed(w))
  }

  // ----- Whole expressions -----

  function Divided(size: nat, dims: seq<nat>): Option<nat>
    decreases |dims|
  {
    if dims == [] then Some(size) else if dims[0] == 0 then None else Divided(size / dims[0], dims[1..])
  }

  function StartPlace(mi: MemberInfo): Option<Place> {
    var byTypedef := mi.decl.None? && mi.typ.TypeRef?;
    var t := if byTypedef then mi.typ.typedef.typ else mi.typ;
    var decl := if byTypedef then Some(mi.typ.typedef.decl) else mi.decl;
    if decl.None? then Some(Place(t, None, mi.level, -1, 0))
    else if mi.level == 0 then Some(Place(t, decl, 0, decl.value.size, 0))
    else if decl.value.size < 0 || mi.level > |Dims(decl.value)| then None
    else
      var size := Divided(decl.value.size, Dims(decl.value)[..mi.level]);
      if size.None? then None else Some(Place(t, decl, mi.level, size.value, 0))
  }

  /** A call that finds a token uses up part of the expression. */
  lemma {:induction false} TokenProgress(u: string, startup: bool)
    ensures var (w, rest) := ReadToken(u, startup); IsToken(w) ==> |rest| < |u|
  {
  }

  /** Follow an expression from a place on. */
  ghost function Lookup(flags: Flags, p: Place, u: string, startup: bool): Result
    decreases |u|
  {
    TokenProgress(u, startup);
    var (w, rest) := ReadToken(u, startup);
    if w == End then Found(p)
    else
      var r := Step(flags, p, w);
      if r.Failed? then r
      else Lookup(flags.(acceptDotless := false), r.place, rest, startup && w.OffsetBy?)
  }

  /** `get_member`: the place that an expression leads to. */
  ghost function MemberAt(flags: Flags, mi: MemberInfo, expr: string): Result {
    var p := StartPlace(mi);
    if p.None? then Failed(Crash) else Lookup(flags, p.value, expr, true)
  }

  // ----- The routine -----

  method SearchDeclarators(ds: seq<Declarator>, name: string) returns (r: Option<Declarator>)
    ensures r == FindDeclarator(ds, name)
  {
    var k := 0;
    while k < |ds|
      invariant k <= |ds| && FindDeclarator(ds, name) == FindDeclarator(ds[k..], name)
    {
      if ds[k].name == name {
        return Some(ds[k]);
      }
      assert ds[k..][1..] == ds[k + 1..];
      k := k + 1;
    }
    r := None;
  }

  /** `search_struct_member`. */
  method SearchStructMember(s: Struct, name: string) returns (r: Option<Located>)
    ensures r == FindMember(s, name)
    decreases s
  {
    var k := 0;
    while k < |s.decls|
      invariant k <= |s.decls| && FindInDecls(s.decls, name) == FindInDecls(s.decls[k..], name)
    {
      var sd := s.decls[k];
      if sd.declarators != [] {
        var d := SearchDeclarators(sd.declarators, name);
        if d.Some? {
          return Some(Clamped(Located(sd.typ, d.value, d.value.offset)));
        }
      } else {
        var h := SearchUnnamed(sd.typ, name);
        if h.Some? {
          return Some(Clamped(h.value.(offset := sd.offset + h.value.offset)));
        }
      }
      assert s.decls[k..][1..] == s.decls[k + 1..];
      k := k + 1;
    }
    r := None;
  }

  method SearchUnnamed(t: TypeSpec, name: string) returns (r: Option<Located>)
    ensures r == FindUnnamed(t, name)
    decreases t, 0
  {
    match t {
      case Compound(s) => r := SearchStructMember(s, name);
      case TypeRef(td) =>
        if td.decl.pointer || td.decl.ext.Array? {
          r := None;
        } else {
          r := SearchUnnamed(td.typ, name);
        }
      case _ => r := None;
    }
  }

  /** `case MERV_COMPOUND_MEMBER`. */
  method EnterMember(p: Place, name: string) returns (r: Result)
    ensures r == MemberStep(p, name)
  {
    if p.decl.Some? && p.level < |Dims(p.decl.value)| {
      return Failed(MemberOfArray);
    } else if p.decl.Some? && p.decl.value.pointer {
      return Failed(MemberOfPointer);
    } else if !p.typ.Compound? {
      return Failed(MemberOfBasic);
    }
    var h := SearchStructMember(p.typ.body, name);
    if h.None? {
      return Failed(NoSuchMember);
    }
    r := Found(Place(h.value.typ, Some(h.value.decl), 0, h.value.decl.size, p.offset + h.value.offset));
  }

  /** The loop that divides the size by the dimensions already indexed. */
  method StartSize(declSize: nat, dims: seq<nat>) returns (r: Option<nat>)
    ensures r == Divided(declSize, dims)
  {
    var size, i := declSize, 0;
    while i < |dims|
      invariant i <= |dims| && Divided(declSize, dims) == Divided(size, dims[i..])
    {
      if dims[i] == 0 {
        return None;
      }
      assert dims[i..][1..] == dims[i + 1..];
      size := size / dims[i];
      i := i + 1;
    }
    r := Some(size);
  }

  method Start(mi: MemberInfo) returns (r: Option<Place>)
    ensures r == StartPlace(mi)
  {
    var t, decl := mi.typ, mi.decl;
    if decl.None? && t.TypeRef? {
      t, decl := t.typedef.typ, Some(t.typedef.decl);
    }
    if decl.None? {
      return Some(Place(t, None, mi.level, -1, 0));
    }
    var d := decl.value;
    if mi.level == 0 {
      return Some(Place(t, decl, 0, d.size, 0));
    }
    if d.size < 0 || mi.level > |Dims(d)| {
      return None;
    }
    var size := StartSize(d.size, Dims(d)[..mi.level]);
    r := if size.None? then None else Some(Place(t, decl, mi.level, size.value, 0));
  }

  /** The `do` loop over typedefs. */
  method Settle(p: Place) returns (q: Place)
    ensures q == Settled(p)
  {
    q := p;
    if p.decl.Some? && !p.decl.value.pointer && p.typ.TypeRef? && p.level == |Dims(p.decl.value)| {
      var t, d := p.typ.typedef.typ, p.typ.typedef.decl;
      while !d.pointer && t.TypeRef? && !d.ext.Array?
        invariant Follow(p.typ.typedef.typ, p.typ.typedef.decl) == Follow(t, d)
        decreases t
      {
        t, d := t.typedef.typ, t.typedef.decl;
      }
      q := p.(typ := t, decl := Some(d), level := 0, size := d.size);
    }
  }

  method GetMember(flags: Flags, mi: MemberInfo, expr: string) returns (r: Result)
    ensures r == MemberAt(flags, mi, expr)
  {
    var start := Start(mi);
    if start.None? {
      return Failed(Crash);
    }
    var p := start.value;
    var walker := new MemberExprWalker(expr);
    var acceptDotless := flags.acceptDotless;
    while true
      invariant fresh(walker) && walker.Valid() && walker.state == Search
      invariant Lookup(flags, start.value, expr, true)
             == Lookup(flags.(acceptDotless := acceptDotless), p, walker.Rest(), walker.startup)
      decreases |walker.Rest()|
    {
      ghost var u := walker.Rest();
      TokenProgress(u, walker.startup);
      var w := walker.Walk();
      if w == End {
        return Found(p);
      }
      r := TokenStep(flags.(acceptDotless := acceptDotless), p, w);
      if r.Failed? {
        return;
      }
      p := r.place;
      acceptDotless := false;
    }
  }

  /** The body of the loop for one token. */
  method TokenStep(flags: Flags, p: Place, w: Walk) returns (r: Result)
    ensures r == Step(flags, p, w)
  {
    if !IsToken(w) {
      return Failed(WalkFailed(w));
    }
    var q := Settle(p);
    match w {
      case CompoundMember(name, hasDot) =>
        if !flags.acceptDotless && !hasDot {
          r := Failed(Dotless(Head(name)));
        } else {
          r := EnterMember(q, name);
        }
      case ArrayIndex(n) => r := IndexStep(flags, q, n);
      case OffsetBy(n) =>
        if flags.rejectOffset {
          r := Failed(OffsetRejected);
        } else {
          r := Found(q.(offset := q.offset + n));
        }
      case _ =>
    }
  }
}
