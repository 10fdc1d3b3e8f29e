/**
 Laying out a list of structs that use one another. The library goes through its list in order; where a
 struct is needed that has not been laid out, it is laid out on demand, in the middle of the one that
 needs it, and is found done later. Without bitfields, this gives every struct the layout it gets from
 the inside out, in whatever order the list is.
 */
module LayoutOnDemand {
  import opened IntegerMemory
  import opened CTypes
  import opened Bitfields
  import opened BitfieldSafety
  import opened Layout
  import opened LayoutDriver

  /** A type that refers to a struct by its place in the list. */
  datatype Ref =
    | Whole(t: TypeSpec)
    | Named(typ: Ref, decl: Declarator)
    | Listed(id: nat)

  datatype RefDecl = RefDecl(typ: Ref, declarators: seq<Declarator>, offset: int, size: int)

  datatype Node = Node(
    isUnion: bool, pack: nat, decls: seq<RefDecl>, align: nat, size: nat, order: Option<ByteOrder>)

  /** The list as it was parsed. What a struct holds by value has a lower rank: no struct contains itself. */
  datatype Program = Program(raw: seq<Node>, rank: seq<nat>)

  /** Something of the type itself is declared, and not just pointers to it. */
  predicate ByValue(rd: RefDecl) {
    rd.declarators == [] || exists d | d in rd.declarators :: !d.pointer
  }

  ghost predicate RefOk(g: Program, r: Ref, bound: nat)
    requires |g.rank| == |g.raw|
  {
    match r
    case Whole(t) => t.Basic? || t.Enum?
    case Named(typ, d) => d.pointer || RefOk(g, typ, bound)
    case Listed(id) => id < |g.raw| && g.rank[id] < bound
  }

  ghost predicate DeclsRefOk(g: Program, decls: seq<RefDecl>, bound: nat)
    requires |g.rank| == |g.raw|
  {
    forall k | 0 <= k < |decls| && ByValue(decls[k]) :: RefOk(g, decls[k].typ, bound)
  }

  ghost predicate Ranked(g: Program) {
    |g.rank| == |g.raw| && forall i | 0 <= i < |g.raw| :: NodeRanked(g, i)
  }

  ghost predicate NodeRanked(g: Program, id: nat)
    requires |g.rank| == |g.raw| && id < |g.raw|
  {
    DeclsRefOk(g, g.raw[id].decls, g.rank[id])
  }

  // ----- The types the references stand for -----

  /** What stands for a type that only pointers point to. */
  const Unseen := Basic({VOID})

  ghost function Tree(g: Program, r: Ref, bound: nat): TypeSpec
    requires Ranked(g) && RefOk(g, r, bound)
    decreases bound, 0, r
  {
    match r
    case Whole(t) => t
    case Named(typ, d) => TypeRef(Typedef(if d.pointer then Unseen else Tree(g, typ, bound), d))
    case Listed(id) => Compound(TreeStruct(g, id))
  }

  ghost function TreeStruct(g: Program, id: nat): Struct
    requires Ranked(g) && id < |g.raw|
    decreases g.rank[id], 2
  {
    var n := g.raw[id];
    assert NodeRanked(g, id);
    Struct(n.isUnion, n.pack, TreeDecls(g, n.decls, g.rank[id]), n.align, n.size, n.order)
  }

  ghost function TreeDecls(g: Program, decls: seq<RefDecl>, bound: nat): (r: seq<StructDecl>)
    requires Ranked(g) && DeclsRefOk(g, decls, bound)
    ensures |r| == |decls|
    ensures forall k | 0 <= k < |decls| ::
      r[k] == StructDecl(TreeOf(g, decls[k], bound), decls[k].declarators, decls[k].offset, decls[k].size)
    decreases bound, 1, |decls|
  {
    if decls == [] then []
    else
      var k := |decls| - 1;
      var rd := decls[k];
      TreeDecls(g, decls[..k], bound)
      + [StructDecl(TreeOf(g, rd, bound), rd.declarators, rd.offset, rd.size)]
  }

  ghost function TreeOf(g: Program, rd: RefDecl, bound: nat): TypeSpec
    requires Ranked(g) && (ByValue(rd) ==> RefOk(g, rd.typ, bound))
    decreases bound, 1, 0
  {
    if ByValue(rd) then Tree(g, rd.typ, bound) else Unseen
  }

  // ----- What is wanted -----

  ghost predicate NoFields(decls: seq<RefDecl>) {
    forall k, d | 0 <= k < |decls| && d in decls[k].declarators :: !d.ext.Bitfield?
  }

  ghost predicate ProgramOk(cfg: Config, g: Program) {
    && Usable(cfg) && Ranked(g)
    && forall i | 0 <= i < |g.raw| :: NodeOk(cfg, g, i)
  }

  ghost predicate NodeOk(cfg: Config, g: Program, id: nat)
    requires Ranked(g) && id < |g.raw|
  {
    Parsed(cfg, Compound(TreeStruct(g, id))) && NoFields(g.raw[id].decls)
  }

  /** The struct laid out from the inside out. */
  ghost function Wanted(cfg: Config, g: Program, id: nat): (r: Struct)
    requires ProgramOk(cfg, g) && id < |g.raw| && g.raw[id].decls != []
    ensures |r.decls| == |g.raw[id].decls| && r.align > 0
  {
    PlaceStruct(cfg, TreeStruct(g, id).(decls := UpdatedOf(cfg, g, id)))
  }

  lemma {:induction false} WantedIs(cfg: Config, g: Program, id: nat)
    requires ProgramOk(cfg, g) && id < |g.raw| && g.raw[id].decls != []
    ensures NodeOk(cfg, g, id) && Updated(cfg, Compound(TreeStruct(g, id))) == Compound(Wanted(cfg, g, id))
  {
    assert NodeOk(cfg, g, id);
  }

  /** The declarations of a struct with their types laid out. */
  ghost function UpdatedOf(cfg: Config, g: Program, id: nat): (r: seq<StructDecl>)
    requires ProgramOk(cfg, g) && id < |g.raw|
    ensures |r| == |g.raw[id].decls| && DeclsOk(ContextOf(cfg, TreeStruct(g, id)), r)
  {
    assert NodeOk(cfg, g, id);
    var s := TreeStruct(g, id);
    assert AllParsed(cfg, s.isUnion, s.pack, s.decls);
    var decls := UpdatedDecls(cfg, s.isUnion, s.pack, s.decls);
    ReadyToPlace(cfg, s, decls);
    decls
  }

  /** What a declarator of a type takes when the type is laid out. */
  ghost function DeclInfo(cfg: Config, g: Program, bound: nat, r: Ref, d: Declarator): Info
    requires ProgramOk(cfg, g) && (d.pointer || (RefOk(g, r, bound) && Parsed(cfg, Tree(g, r, bound))))
  {
    TypeInfo(cfg.lp, if d.pointer then Unseen else Updated(cfg, Tree(g, r, bound)), d)
  }

  /** A typedef takes what its declarator takes. */
  lemma {:induction false} NamedInfo(cfg: Config, g: Program, bound: nat, r: Ref, d: Declarator)
    requires ProgramOk(cfg, g) && RefOk(g, Named(r, d), bound) && Parsed(cfg, Tree(g, Named(r, d), bound))
    ensures d.pointer || Parsed(cfg, Tree(g, r, bound))
    ensures var i := DeclInfo(cfg, g, bound, r, d);
      ItemInfo(cfg.lp, Updated(cfg, Tree(g, Named(r, d), bound)), false) == Info(i.size, i.align, i.size, i.known)
  {
    var typ := if d.pointer then Unseen else Tree(g, r, bound);
    var m := Measured(cfg, Updated(cfg, typ), d);
    assert Dims(m) == Dims(d);
    assert Updated(cfg, Tree(g, Named(r, d), bound)) == TypeRef(Typedef(Updated(cfg, typ), m));
    assert TypeInfo(cfg.lp, Updated(cfg, typ), m) == TypeInfo(cfg.lp, Updated(cfg, typ), d);
  }

  /** A declaration with its results filled in. */
  function WithResults(rd: RefDecl, sd: StructDecl): RefDecl {
    rd.(declarators := sd.declarators, offset := sd.offset, size := sd.size)
  }

  ghost function Results(rds: seq<RefDecl>, sds: seq<StructDecl>): (r: seq<RefDecl>)
    requires |rds| == |sds|
  {
    seq(|rds|, k requires 0 <= k < |rds| => WithResults(rds[k], sds[k]))
  }

  lemma ResultsStep(rds: seq<RefDecl>, k: nat, sds: seq<StructDecl>)
    requires k < |rds| && |sds| == k + 1
    ensures Results(rds[..k + 1], sds) == Results(rds[..k], sds[..k]) + [WithResults(rds[k], sds[k])]
  {
  }

  /** The entry of the list that has been laid out. */
  ghost function Done(cfg: Config, g: Program, id: nat): Node
    requires ProgramOk(cfg, g) && id < |g.raw|
  {
    var n := g.raw[id];
    if n.decls == [] then n
    else
      var s := Wanted(cfg, g, id);
      n.(decls := Results(n.decls, s.decls), align := s.align, size := s.size)
  }

  /** What a run starts with. */
  lemma {:induction false} EntryStart(cfg: Config, g: Program, id: nat, c: Context, align: nat)
    requires ProgramOk(cfg, g) && id < |g.raw|
    requires var n := g.raw[id];
      var limit := if n.pack > 0 then n.pack else Chosen(cfg.lp.alignment, cfg.lp.nativeAlignment);
      && c == Context(cfg.lp, n.isUnion, limit, cfg.cls, cfg.blockSize)
      && align == Min(limit, Chosen(cfg.lp.compoundAlignment, cfg.lp.nativeCompoundAlignment))
    ensures var s := TreeStruct(g, id);
      c == ContextOf(cfg, s) && Progress(0, align, None) == Resumed(cfg, s) && ContextOk(c) && align > 0
  {
    assert NodeOk(cfg, g, id);
  }

  /** What a run makes of an entry. */
  lemma {:induction false} DoneIs(cfg: Config, g: Program, id: nat, c: Context, align: nat, sds: seq<StructDecl>,
                                  size: nat, n: Node)
    requires ProgramOk(cfg, g) && id < |g.raw| && g.raw[id].decls != [] && sds == UpdatedOf(cfg, g, id)
    requires c == ContextOf(cfg, TreeStruct(g, id)) && Progress(0, align, None) == Resumed(cfg, TreeStruct(g, id))
    requires ContextOk(c) && align > 0 && n.align > 0
    requires var r := PlaceDecls(c, Progress(0, align, None), sds);
      Progress(size, n.align, None) == r.0 && n.decls == Results(g.raw[id].decls, r.1)
    requires n == g.raw[id].(decls := n.decls, align := n.align, size := RoundUp(size, n.align))
    ensures n == Done(cfg, g, id)
  {
    assert Wanted(cfg, g, id).decls == PlaceDecls(c, Progress(0, align, None), sds).1;
  }

  /** The type of a declarator can be asked for, and takes what the laid-out type t does. */
  ghost predicate InfoReady(cfg: Config, g: Program, bound: nat, r: Ref, d: Declarator, t: TypeSpec)
    requires ProgramOk(cfg, g)
  {
    && Sized(cfg.lp, t) && !d.ext.Bitfield?
    && (d.pointer || (RefOk(g, r, bound) && Parsed(cfg, Tree(g, r, bound))))
    && DeclInfo(cfg, g, bound, r, d) == TypeInfo(cfg.lp, t, d)
  }

  /** The same of an unnamed struct or union. */
  ghost predicate ItemReady(cfg: Config, g: Program, bound: nat, r: Ref, t: TypeSpec)
    requires ProgramOk(cfg, g)
  {
    && Sized(cfg.lp, t) && RefOk(g, r, bound) && Parsed(cfg, Tree(g, r, bound))
    && ItemInfo(cfg.lp, Updated(cfg, Tree(g, r, bound)), false) == ItemInfo(cfg.lp, t, false)
  }

  /** Declaration rd can be laid out as sd. */
  ghost predicate RefReady(cfg: Config, g: Program, bound: nat, rd: RefDecl, sd: StructDecl)
    requires ProgramOk(cfg, g)
  {
    && sd.declarators == rd.declarators
    && (rd.declarators == [] ==> ItemReady(cfg, g, bound, rd.typ, sd.typ))
    && forall d | d in rd.declarators :: InfoReady(cfg, g, bound, rd.typ, d, sd.typ)
  }

  lemma {:induction false} DeclWanted(cfg: Config, g: Program, id: nat, k: nat)
    requires ProgramOk(cfg, g) && id < |g.raw| && k < |g.raw[id].decls|
    ensures var sd := UpdatedOf(cfg, g, id)[k];
      DeclOk(ContextOf(cfg, TreeStruct(g, id)), sd) && RefReady(cfg, g, g.rank[id], g.raw[id].decls[k], sd)
  {
    var s, rd := TreeStruct(g, id), g.raw[id].decls[k];
    assert NodeOk(cfg, g, id) && NodeRanked(g, id);
    assert AllParsed(cfg, s.isUnion, s.pack, s.decls);
    assert ParsedDecl(cfg, s.isUnion, s.pack, s.decls[k]);
    assert UpdatedOf(cfg, g, id)[k] == UpdatedDecl(cfg, s.isUnion, s.pack, s.decls[k]);
    assert UpdatedOf(cfg, g, id)[k] in UpdatedOf(cfg, g, id);
    forall d | d in rd.declarators
      ensures InfoReady(cfg, g, g.rank[id], rd.typ, d, UpdatedOf(cfg, g, id)[k].typ)
    {
    }
  }

  lemma {:induction false} DeclsWanted(cfg: Config, g: Program, id: nat)
    requires ProgramOk(cfg, g) && id < |g.raw|
    ensures var rds, sds := g.raw[id].decls, UpdatedOf(cfg, g, id);
      forall k | 0 <= k < |rds| :: RefReady(cfg, g, g.rank[id], rds[k], sds[k])
  {
    var rds, sds := g.raw[id].decls, UpdatedOf(cfg, g, id);
    forall k | 0 <= k < |rds|
      ensures RefReady(cfg, g, g.rank[id], rds[k], sds[k])
    {
      DeclWanted(cfg, g, id, k);
    }
  }

  /** The first k declarators placed. */
  ghost function PlacedTo(c: Context, p: Progress, t: TypeSpec, ds: seq<Declarator>, k: nat): (r: Placed)
    requires ProgressOk(c, p) && DeclaratorsOk(c, t, ds) && k <= |ds|
    ensures ProgressOk(c, r.p)
  {
    PlaceDeclarators(c, p, t, ds[..k])
  }

  lemma {:induction false} PlacedSteps(c: Context, p: Progress, t: TypeSpec, ds: seq<Declarator>, k: nat)
    requires ProgressOk(c, p) && DeclaratorsOk(c, t, ds) && k < |ds|
    ensures ds[k] in ds && MemberOk(c, t, ds[k]) && ItemInfo(c.lp, t, ds[k].pointer).align > 0
    ensures PlacedTo(c, p, t, ds, k + 1) == PlaceDeclarator(c, PlacedTo(c, p, t, ds, k), t, ds[k])
  {
    assert ds[..k + 1][..k] == ds[..k];
  }

  lemma {:induction false} PlacedEnds(c: Context, p: Progress, t: TypeSpec, ds: seq<Declarator>)
    requires ProgressOk(c, p) && DeclaratorsOk(c, t, ds)
    ensures PlacedTo(c, p, t, ds, 0) == Placed(p, [], if c.isUnion then 0 else -1)
    ensures PlacedTo(c, p, t, ds, |ds|) == PlaceDeclarators(c, p, t, ds)
  {
    assert ds[..0] == [] && ds[..|ds|] == ds;
  }

  lemma {:induction false} DeclsStep(c: Context, p: Progress, sds: seq<StructDecl>, k: nat)
    requires ProgressOk(c, p) && DeclsOk(c, sds) && k < |sds|
    ensures DeclsOk(c, sds[..k]) && DeclsOk(c, sds[..k + 1]) && DeclOk(c, sds[k])
    ensures var q := PlaceDecls(c, p, sds[..k]);
      ProgressOk(c, q.0)
      && PlaceDecls(c, p, sds[..k + 1]) == (PlaceDecl(c, q.0, sds[k]).0, q.1 + [PlaceDecl(c, q.0, sds[k]).1])
  {
    assert sds[..k + 1][..k] == sds[..k];
  }

  // ----- The state of the list -----

  /** An entry as parsed, or laid out. */
  ghost predicate NodeHolds(cfg: Config, g: Program, id: nat, n: Node)
    requires ProgramOk(cfg, g) && id < |g.raw|
  {
    n == g.raw[id] || n == Done(cfg, g, id)
  }

  /** Entries of rank below the bound are as parsed or laid out. */
  ghost predicate Holds(cfg: Config, g: Program, bound: nat, nodes: seq<Node>)
    requires ProgramOk(cfg, g)
  {
    |nodes| == |g.raw| && forall i | 0 <= i < |nodes| && g.rank[i] < bound :: NodeHolds(cfg, g, i, nodes[i])
  }

  /** Entries of the bound's rank and above, and those that have been laid out, are left alone. */
  ghost predicate NodeKept(g: Program, bound: nat, id: nat, was: Node, n: Node)
    requires id < |g.raw| == |g.rank|
  {
    g.rank[id] >= bound || was != g.raw[id] ==> n == was
  }

  /** What a layout makes of the list: it still holds below the bound, and the rest is left alone. */
  ghost predicate Advances(cfg: Config, g: Program, bound: nat, was: seq<Node>, nodes: seq<Node>)
    requires ProgramOk(cfg, g)
  {
    && Holds(cfg, g, bound, nodes) && |was| == |nodes|
    && forall i | 0 <= i < |nodes| :: NodeKept(g, bound, i, was[i], nodes[i])
  }

  lemma {:induction false} AdvancesTrans(cfg: Config, g: Program, bound: nat, a: seq<Node>, b: seq<Node>, c: seq<Node>)
    requires ProgramOk(cfg, g) && Advances(cfg, g, bound, a, b) && Advances(cfg, g, bound, b, c)
    ensures Advances(cfg, g, bound, a, c)
  {
    forall i | 0 <= i < |c|
      ensures NodeKept(g, bound, i, a[i], c[i])
    {
      assert NodeKept(g, bound, i, a[i], b[i]) && NodeKept(g, bound, i, b[i], c[i]);
    }
  }

  /** An alignment of zero tells what has not been laid out. */
  lemma {:induction false} RawOrDone(cfg: Config, g: Program, id: nat, n: Node)
    requires ProgramOk(cfg, g) && id < |g.raw| && NodeHolds(cfg, g, id, n)
    ensures n.decls == [] <==> g.raw[id].decls == []
    ensures if n.align == 0 && n.decls != [] then n == g.raw[id] else n == Done(cfg, g, id)
  {
    assert NodeOk(cfg, g, id);
  }

  /** The list, when all entries below i have been taken care of. */
  ghost predicate DoneBelow(cfg: Config, g: Program, i: nat, nodes: seq<Node>)
    requires ProgramOk(cfg, g)
  {
    && |nodes| == |g.raw|
    && forall j | 0 <= j < |nodes| :: NodeHolds(cfg, g, j, nodes[j]) && (j < i ==> nodes[j] == Done(cfg, g, j))
  }

  lemma {:induction false} OneMoreDone(cfg: Config, g: Program, i: nat, was: seq<Node>, nodes: seq<Node>)
    requires ProgramOk(cfg, g) && i < |was| == |nodes| && DoneBelow(cfg, g, i, was) && nodes[i] == Done(cfg, g, i)
    requires nodes == was || Holds(cfg, g, g.rank[i], nodes)
    requires forall j | 0 <= j < |nodes| && j != i :: NodeKept(g, g.rank[i], j, was[j], nodes[j])
    ensures DoneBelow(cfg, g, i + 1, nodes)
  {
    forall j | 0 <= j < |nodes| && j != i
      ensures NodeHolds(cfg, g, j, nodes[j]) && (j < i ==> nodes[j] == Done(cfg, g, j))
    {
      assert NodeKept(g, g.rank[i], j, was[j], nodes[j]) && NodeHolds(cfg, g, j, was[j]);
    }
  }

  // ----- The routine -----

  method ArraySize(item: nat, dims: seq<nat>) returns (size: nat)
    ensures size == item * Product(dims)
  {
    size := item;
    var i := 0;
    assert dims[0..] == dims;
    while i < |dims|
      invariant i <= |dims| && size * Product(dims[i..]) == item * Product(dims)
    {
      ProductStep(dims, i, size);
      size := size * dims[i];
      i := i + 1;
    }
    assert dims[i..] == [];
  }

  /** Room for a plain member, with no bitfields about. */
  method PutPlain(c: Context, size: nat, align: nat, mSize: nat, mAlign: nat)
    returns (size': nat, align': nat, offset: nat)
    requires c.limit > 0 && mAlign > 0
    ensures (Progress(size', align', None), offset) == PlaceMember(c, Progress(size, align, None), mSize, mAlign)
  {
    var a := Min(mAlign, c.limit);
    size', align' := size, Max(align, a);
    if c.isUnion {
      offset, size' := 0, Max(size, mSize);
    } else {
      offset := Pad(size, a);
      size' := offset + mSize;
    }
  }

  class StructList {
    var nodes: seq<Node>

    constructor (nodes: seq<Node>)
      ensures this.nodes == nodes
    {
      this.nodes := nodes;
    }

    /** `get_type_info_generic` of a type alone, which lays out what it needs. */
    method DemandItem(cfg: Config, ghost g: Program, ghost bound: nat, r: Ref) returns (i: Info)
      requires ProgramOk(cfg, g) && Holds(cfg, g, bound, nodes) && RefOk(g, r, bound) && Parsed(cfg, Tree(g, r, bound))
      modifies this
      ensures Advances(cfg, g, bound, old(nodes), nodes)
      ensures i == ItemInfo(cfg.lp, Updated(cfg, Tree(g, r, bound)), false)
      decreases bound, 0, r, 1
    {
      match r {
        case Whole(t) => i := GetTypeInfo(cfg.lp, t, None);
        case Named(typ, d) =>
          i := DemandInfo(cfg, g, bound, typ, d);
          i := Info(i.size, i.align, i.size, i.known);
          NamedInfo(cfg, g, bound, typ, d);
        case Listed(id) => i := DemandStruct(cfg, g, bound, id);
      }
    }

    /** The same of a declarator: for pointers, the type is not looked at. */
    method DemandInfo(cfg: Config, ghost g: Program, ghost bound: nat, r: Ref, d: Declarator) returns (i: Info)
      requires ProgramOk(cfg, g) && Holds(cfg, g, bound, nodes)
      requires d.pointer || (RefOk(g, r, bound) && Parsed(cfg, Tree(g, r, bound)))
      modifies this
      ensures Advances(cfg, g, bound, old(nodes), nodes)
      ensures i == DeclInfo(cfg, g, bound, r, d)
      decreases bound, 0, r, 2
    {
      if d.pointer {
        i := Info(PointerSize(cfg.lp), PointerSize(cfg.lp), PointerSize(cfg.lp), true);
      } else {
        i := DemandItem(cfg, g, bound, r);
      }
      var size := ArraySize(i.item, Dims(d));
      i := i.(size := size);
    }

    method DemandStruct(cfg: Config, ghost g: Program, ghost bound: nat, id: nat) returns (i: Info)
      requires ProgramOk(cfg, g) && Holds(cfg, g, bound, nodes) && id < |g.raw| && g.rank[id] < bound
      modifies this
      ensures Advances(cfg, g, bound, old(nodes), nodes)
      ensures NodeOk(cfg, g, id) && i == ItemInfo(cfg.lp, Updated(cfg, Compound(TreeStruct(g, id))), false)
      decreases bound, 0, Listed(id), 0
    {
      RawOrDone(cfg, g, id, nodes[id]);
      if nodes[id].decls == [] {
        i := Info(IntSizeOf(cfg.lp), IntSizeOf(cfg.lp), IntSizeOf(cfg.lp), false);
      } else {
        if nodes[id].align == 0 {
          LayoutNode(cfg, g, id);
        }
        WantedIs(cfg, g, id);
        i := Info(nodes[id].size, nodes[id].align, nodes[id].size, true);
      }
    }

    /** One declarator. */
    method LayoutRefDeclarator(cfg: Config, ghost g: Program, ghost bound: nat, c: Context, size: nat, align: nat,
                               r: Ref, d: Declarator, first: int, ghost t: TypeSpec, ghost done: seq<Declarator>)
      returns (size': nat, align': nat, d': Declarator, first': int)
      requires ProgramOk(cfg, g) && Holds(cfg, g, bound, nodes) && c.lp == cfg.lp && ContextOk(c) && align > 0
      requires MemberOk(c, t, d) && ItemInfo(c.lp, t, d.pointer).align > 0 && InfoReady(cfg, g, bound, r, d, t)
      modifies this
      ensures Advances(cfg, g, bound, old(nodes), nodes) && align' > 0
      ensures Placed(Progress(size', align', None), done + [d'], first')
           == PlaceDeclarator(c, Placed(Progress(size, align, None), done, first), t, d)
      decreases bound, 1
    {
      var info := DemandInfo(cfg, g, bound, r, d);
      assert info == TypeInfo(c.lp, t, d);
      var offset;
      size', align', offset := PutPlain(c, size, align, info.size, info.align);
      d' := d.(offset := offset, size := info.size, itemSize := info.item);
      first' := if !c.isUnion && first < 0 then offset else first;
    }

    method LayoutRefDeclarators(cfg: Config, ghost g: Program, ghost bound: nat, c: Context, size: nat, align: nat,
                                rd: RefDecl, ghost t: TypeSpec)
      returns (size': nat, align': nat, decls: seq<Declarator>, first: int)
      requires ProgramOk(cfg, g) && Holds(cfg, g, bound, nodes) && c.lp == cfg.lp && ContextOk(c) && align > 0
      requires DeclaratorsOk(c, t, rd.declarators)
      requires forall d | d in rd.declarators :: InfoReady(cfg, g, bound, rd.typ, d, t)
      modifies this
      ensures Advances(cfg, g, bound, old(nodes), nodes) && align' > 0
      ensures Placed(Progress(size', align', None), decls, first)
           == PlaceDeclarators(c, Progress(size, align, None), t, rd.declarators)
      decreases bound, 2
    {
      var ds := rd.declarators;
      size', align', decls, first := size, align, [], if c.isUnion then 0 else -1;
      ghost var p := Progress(size, align, None);
      PlacedEnds(c, p, t, ds);
      var k := 0;
      while k < |ds|
        invariant k <= |ds| && Advances(cfg, g, bound, old(nodes), nodes) && align' > 0
        invariant Placed(Progress(size', align', None), decls, first) == PlacedTo(c, p, t, ds, k)
      {
        PlacedSteps(c, p, t, ds, k);
        ghost var was := nodes;
        var d;
        size', align', d, first := LayoutRefDeclarator(cfg, g, bound, c, size', align', rd.typ, ds[k], first, t, decls);
        AdvancesTrans(cfg, g, bound, old(nodes), was, nodes);
        decls := decls + [d];
        k := k + 1;
      }
    }

    /** One declaration. */
    method LayoutRefDecl(cfg: Config, ghost g: Program, ghost bound: nat, c: Context, size: nat, align: nat,
                         rd: RefDecl, ghost sd: StructDecl)
      returns (size': nat, align': nat, rd': RefDecl)
      requires ProgramOk(cfg, g) && Holds(cfg, g, bound, nodes) && c.lp == cfg.lp && ContextOk(c) && align > 0
      requires DeclOk(c, sd) && RefReady(cfg, g, bound, rd, sd)
      modifies this
      ensures Advances(cfg, g, bound, old(nodes), nodes) && align' > 0
      ensures var r := PlaceDecl(c, Progress(size, align, None), sd);
        Progress(size', align', None) == r.0 && rd' == WithResults(rd, r.1)
      decreases bound, 3
    {
      rd' := rd;
      var first;
      if rd.declarators != [] {
        var decls;
        size', align', decls, first := LayoutRefDeclarators(cfg, g, bound, c, size, align, rd, sd.typ);
        rd' := rd'.(declarators := decls);
      } else {
        var info := DemandItem(cfg, g, bound, rd.typ);
        size', align', first := PutPlain(c, size, align, info.size, info.align);
      }
      if first < 0 {
        first := size';
      }
      rd' := rd'.(offset := first, size := size' - first);
    }

    /** `layout_compound_generic`. */
    method LayoutNode(cfg: Config, ghost g: Program, id: nat)
      requires ProgramOk(cfg, g) && id < |g.raw| && Holds(cfg, g, g.rank[id], nodes)
      requires nodes[id] == g.raw[id] && g.raw[id].decls != []
      modifies this
      ensures Holds(cfg, g, g.rank[id], nodes) && nodes[id] == Done(cfg, g, id) && |nodes| == |old(nodes)|
      ensures forall j | 0 <= j < |nodes| && j != id :: NodeKept(g, g.rank[id], j, old(nodes[j]), nodes[j])
      decreases g.rank[id], 6
    {
      var n := LayoutEntry(cfg, g, id, nodes[id]);
      nodes := nodes[id := n];
    }

    method LayoutEntry(cfg: Config, ghost g: Program, ghost id: nat, n: Node) returns (r: Node)
      requires ProgramOk(cfg, g) && id < |g.raw| && Holds(cfg, g, g.rank[id], nodes)
      requires n == g.raw[id] && n.decls != []
      modifies this
      ensures Advances(cfg, g, g.rank[id], old(nodes), nodes) && r == Done(cfg, g, id)
      decreases g.rank[id], 5
    {
      var limit := if n.pack > 0 then n.pack else Chosen(cfg.lp.alignment, cfg.lp.nativeAlignment);
      var c := Context(cfg.lp, n.isUnion, limit, cfg.cls, cfg.blockSize);
      var align0 := Min(limit, Chosen(cfg.lp.compoundAlignment, cfg.lp.nativeCompoundAlignment));
      ghost var sds := UpdatedOf(cfg, g, id);
      EntryStart(cfg, g, id, c, align0);
      DeclsWanted(cfg, g, id);
      var size, align, decls := LayoutRefDecls(cfg, g, g.rank[id], c, 0, align0, n.decls, sds);
      var padded := Pad(size, align);
      r := n.(decls := decls, align := align, size := padded);
      DoneIs(cfg, g, id, c, align0, sds, size, r);
    }

    /** The outer loop. */
    method LayoutRefDecls(cfg: Config, ghost g: Program, ghost bound: nat, c: Context, size: nat, align: nat,
                          rds: seq<RefDecl>, ghost sds: seq<StructDecl>)
      returns (size': nat, align': nat, out: seq<RefDecl>)
      requires ProgramOk(cfg, g) && Holds(cfg, g, bound, nodes) && c.lp == cfg.lp && ContextOk(c) && align > 0
      requires |sds| == |rds| && DeclsOk(c, sds) && forall k | 0 <= k < |rds| :: RefReady(cfg, g, bound, rds[k], sds[k])
      modifies this
      ensures Advances(cfg, g, bound, old(nodes), nodes) && align' > 0
      ensures var r := PlaceDecls(c, Progress(size, align, None), sds);
        Progress(size', align', None) == r.0 && out == Results(rds, r.1)
      decreases bound, 4
    {
      ghost var placed: seq<StructDecl> := [];
      var k := 0;
      size', align', out := size, align, [];
      while k < |rds|
        invariant k <= |rds| && |out| == |placed| == k && align' > 0
        invariant Advances(cfg, g, bound, old(nodes), nodes)
        invariant (Progress(size', align', None), placed) == PlaceDecls(c, Progress(size, align, None), sds[..k])
        invariant out == Results(rds[..k], placed)
      {
        DeclsStep(c, Progress(size, align, None), sds, k);
        ghost var sd := PlaceDecl(c, Progress(size', align', None), sds[k]).1;
        assert (placed + [sd])[..k] == placed;
        placed := placed + [sd];
        ghost var was := nodes;
        var rd;
        size', align', rd := LayoutRefDecl(cfg, g, bound, c, size', align', rds[k], sds[k]);
        AdvancesTrans(cfg, g, bound, old(nodes), was, nodes);
        ResultsStep(rds, k, placed);
        out := out + [rd];
        k := k + 1;
      }
      assert sds[..k] == sds && rds[..k] == rds;
    }

    /** `update_parse_info`: whatever has not been laid out on the way is laid out. */
    method Update(cfg: Config, ghost g: Program)
      requires ProgramOk(cfg, g) && nodes == g.raw
      modifies this
      ensures |nodes| == |g.raw| && forall i | 0 <= i < |nodes| :: nodes[i] == Done(cfg, g, i)
    {
      var i := 0;
      while i < |nodes|
        invariant i <= |nodes| == |g.raw|
        invariant DoneBelow(cfg, g, i, nodes)
      {
        RawOrDone(cfg, g, i, nodes[i]);
        ghost var was := nodes;
        if nodes[i].align == 0 && nodes[i].decls != [] {
          LayoutNode(cfg, g, i);
        }
        OneMoreDone(cfg, g, i, was, nodes);
        i := i + 1;
      }
    }
  }

  // ----- With bitfields -----

  /** Why bitfields are left out: `int a:3;` takes one byte, but if a struct with `int b:5;` is laid out on
      demand before the run is finished, finishing it gives two. */
  lemma {:induction false} OpenRunDisturbed(e: Unit, a: Declarator, b: Declarator)
    requires e == Unit(LittleEndian, e.maxAlign, e.align, 0, 0, 0, 0) && e.maxAlign > 0
    requires a.ext.Bitfield? && a.ext.bits == 3 && b.ext.Bitfield? && b.ext.bits == 5
    ensures var outer := Generic(GenericPush(e, a, 4, 4).0);
      var start := WithOffset(ResetEngine(outer), 0);
      && UnitFits(start.unit, 4, 4)
      && var inner := FinalizeEngine(Generic(GenericPush(start.unit, b, 4, 4).0));
      && Offset(FinalizeEngine(outer)) == 1
      && Offset(FinalizeEngine(inner)) == 2
  {
    PushValues(e, GenericRetype(e, 4, 4), a, 4);
    var start := WithOffset(ResetEngine(Generic(GenericPush(e, a, 4, 4).0)), 0).unit;
    PushValues(start, GenericRetype(start, 4, 4), b, 4);
  }
}
