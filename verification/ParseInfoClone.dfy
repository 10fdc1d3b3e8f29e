/**
 Copying everything that was parsed: enums, structs, typedefs and files form a graph, cyclic in
 general, that is copied node by node; then every pointer in the copies is looked up in a map from
 old nodes to new ones.
 */
module ParseInfoClone {
  import opened CTypes

  class FileInfo {
    const name: string

    constructor (name: string)
      ensures this.name == name
    {
      this.name := name;
    }
  }

  /** A pointer from a type to what it names. */
  datatype Ref = NoRef | EnumRef(e: EnumSpecifier) | StructRef(s: StructSpecifier) | TypedefRef(t: TypedefEntry)

  class EnumSpecifier {
    const identifier: string
    const enumerators: seq<(string, int)>
    var file: FileInfo?

    constructor Clone(src: EnumSpecifier)
      ensures identifier == src.identifier && enumerators == src.enumerators && file == src.file
    {
      identifier, enumerators, file := src.identifier, src.enumerators, src.file;
    }
  }

  ghost predicate SameEnum(a: EnumSpecifier, b: EnumSpecifier) {
    a.identifier == b.identifier && a.enumerators == b.enumerators
  }

  datatype StructDeclaration = StructDeclaration(ref: Ref, flags: set<Flag>, declarators: seq<Declarator>, offset: int,
                                                 size: int)

  class StructSpecifier {
    const identifier: string
    const isUnion: bool
    const pack: nat
    const align: nat
    const size: nat
    var declarations: seq<StructDeclaration>
    var file: FileInfo?

    constructor Clone(src: StructSpecifier)
      ensures SameStruct(this, src) && declarations == src.declarations && file == src.file
    {
      identifier, isUnion, pack, align, size := src.identifier, src.isUnion, src.pack, src.align, src.size;
      declarations, file := src.declarations, src.file;
    }
  }

  ghost predicate SameStruct(a: StructSpecifier, b: StructSpecifier) {
    a.identifier == b.identifier && a.isUnion == b.isUnion && a.pack == b.pack && a.align == b.align && a.size == b.size
  }

  /** Its type is the one of the list it is in. */
  class TypedefEntry {
    const decl: Declarator
    var list: TypedefList?

    constructor Clone(src: TypedefEntry)
      ensures decl == src.decl && list == src.list
    {
      decl, list := src.decl, src.list;
    }
  }

  class TypedefList {
    const flags: set<Flag>
    const typedefs: seq<TypedefEntry>
    var ref: Ref

    constructor Clone(src: TypedefList, typedefs: seq<TypedefEntry>)
      ensures flags == src.flags && ref == src.ref && this.typedefs == typedefs
    {
      flags, ref, this.typedefs := src.flags, src.ref, typedefs;
    }
  }

  // ----- The pointer map -----

  datatype PtrMap = PtrMap(
    enums: map<EnumSpecifier, EnumSpecifier>, structs: map<StructSpecifier, StructSpecifier>,
    typedefs: map<TypedefEntry, TypedefEntry>, files: map<FileInfo, FileInfo>)

  predicate Mapped(m: PtrMap, r: Ref) {
    match r
    case NoRef => true
    case EnumRef(e) => e in m.enums
    case StructRef(s) => s in m.structs
    case TypedefRef(t) => t in m.typedefs
  }

  /** The clone of what a pointer points to. */
  function Image(m: PtrMap, r: Ref): Ref
    requires Mapped(m, r)
  {
    match r
    case NoRef => NoRef
    case EnumRef(e) => EnumRef(m.enums[e])
    case StructRef(s) => StructRef(m.structs[s])
    case TypedefRef(t) => TypedefRef(m.typedefs[t])
  }

  function FileImage(files: map<FileInfo, FileInfo>, f: FileInfo?): FileInfo?
    requires f == null || f in files
  {
    if f == null then null else files[f]
  }

  /** dst[i] is the clone of src[i], and nothing else is in the map. */
  ghost predicate Pairs<T>(m: map<T, T>, src: seq<T>, dst: seq<T>) {
    && |src| == |dst| && (forall x | x in m :: x in src)
    && forall i | 0 <= i < |src| :: src[i] in m && m[src[i]] == dst[i]
  }

  ghost predicate Distinct<T>(xs: seq<T>) {
    forall i, j | 0 <= i < j < |xs| :: xs[i] != xs[j]
  }

  // ----- Lookup tables by name -----

  /** `HT_store` keeps the first entry of a name. */
  function Stored<T>(h: map<string, T>, name: string, x: T): map<string, T> {
    if name in h then h else h[name := x]
  }

  /** Nameless objects are not entered. */
  function Entered<T>(h: map<string, T>, name: string, x: T): map<string, T> {
    if name == "" then h else Stored(h, name, x)
  }

  /** The map from the objects of one list to those of another, as it is stored entry by entry. */
  function MapOf<T>(src: seq<T>, dst: seq<T>): map<T, T>
    requires |src| == |dst|
    decreases |src|
  {
    if src == [] then map[] else var k := |src| - 1; MapOf(src[..k], dst[..k])[src[k] := dst[k]]
  }

  lemma {:induction false} MapStep<T>(src: seq<T>, dst: seq<T>, k: nat, y: T)
    requires k < |src| && |dst| == k
    ensures MapOf(src[..k + 1], dst + [y]) == MapOf(src[..k], dst)[src[k] := y]
  {
    assert src[..k + 1][..k] == src[..k] && (dst + [y])[..k] == dst;
  }

  lemma {:induction false} MapPairs<T>(src: seq<T>, dst: seq<T>)
    requires |src| == |dst| && Distinct(src)
    ensures Pairs(MapOf(src, dst), src, dst)
    decreases |src|
  {
    if src != [] {
      var k := |src| - 1;
      MapPairs(src[..k], dst[..k]);
    }
  }

  function EnumTable(es: seq<EnumSpecifier>): map<string, EnumSpecifier>
    decreases |es|
  {
    if es == [] then map[] else var k := |es| - 1; Entered(EnumTable(es[..k]), es[k].identifier, es[k])
  }

  function StructTable(ss: seq<StructSpecifier>): map<string, StructSpecifier>
    decreases |ss|
  {
    if ss == [] then map[] else var k := |ss| - 1; Entered(StructTable(ss[..k]), ss[k].identifier, ss[k])
  }

  function TypedefTable(ts: seq<TypedefEntry>): map<string, TypedefEntry>
    decreases |ts|
  {
    if ts == [] then map[] else var k := |ts| - 1; Stored(TypedefTable(ts[..k]), ts[k].decl.name, ts[k])
  }

  /** A table has, under every name in use, the first object of that name. */
  lemma {:induction false} EnumTableIs(xs: seq<EnumSpecifier>, name: string)
    ensures name in EnumTable(xs) <==> name != "" && exists x | x in xs :: x.identifier == name
    ensures name in EnumTable(xs) ==> exists k | 0 <= k < |xs| ::
      EnumTable(xs)[name] == xs[k] && xs[k].identifier == name && forall i | 0 <= i < k :: xs[i].identifier != name
    decreases |xs|
  {
    if xs != [] {
      var k := |xs| - 1;
      EnumTableIs(xs[..k], name);
      assert forall x | x in xs :: x == xs[k] || x in xs[..k];
    }
  }

  lemma {:induction false} StructTableIs(xs: seq<StructSpecifier>, name: string)
    ensures name in StructTable(xs) <==> name != "" && exists x | x in xs :: x.identifier == name
    ensures name in StructTable(xs) ==> exists k | 0 <= k < |xs| ::
      StructTable(xs)[name] == xs[k] && xs[k].identifier == name && forall i | 0 <= i < k :: xs[i].identifier != name
    decreases |xs|
  {
    if xs != [] {
      var k := |xs| - 1;
      StructTableIs(xs[..k], name);
      assert forall x | x in xs :: x == xs[k] || x in xs[..k];
    }
  }

  lemma {:induction false} TypedefTableIs(xs: seq<TypedefEntry>, name: string)
    ensures name in TypedefTable(xs) <==> exists x | x in xs :: x.decl.name == name
    ensures name in TypedefTable(xs) ==> exists k | 0 <= k < |xs| ::
      TypedefTable(xs)[name] == xs[k] && xs[k].decl.name == name && forall i | 0 <= i < k :: xs[i].decl.name != name
    decreases |xs|
  {
    if xs != [] {
      var k := |xs| - 1;
      TypedefTableIs(xs[..k], name);
      assert forall x | x in xs :: x == xs[k] || x in xs[..k];
    }
  }

  lemma {:induction false} Shorter<T>(xs: seq<T>, x: T)
    ensures (xs + [x])[..|xs| + 1 - 1] == xs
  {
  }

  lemma {:induction false} PrefixStep<T>(xs: seq<T>, k: nat)
    requires k < |xs|
    ensures xs[..k + 1] == xs[..k] + [xs[k]]
  {
  }

  lemma {:induction false} DistinctStep<T>(xs: seq<T>, x: T)
    requires Distinct(xs) && x !in xs
    ensures Distinct(xs + [x])
  {
  }

  // ----- The first pass: new nodes -----

  ghost predicate EnumsCopied(dst: seq<EnumSpecifier>, src: seq<EnumSpecifier>)
    reads dst, src
  {
    |dst| == |src| && forall i | 0 <= i < |dst| ::
      SameEnum(dst[i], src[i]) && dst[i].file == src[i].file
  }

  lemma {:induction false} EnumsStep(dst: seq<EnumSpecifier>, src: seq<EnumSpecifier>, k: nat, x: EnumSpecifier)
    requires k < |src| && EnumsCopied(dst, src[..k]) && SameEnum(x, src[k]) && x.file == src[k].file
    ensures EnumsCopied(dst + [x], src[..k + 1])
  {
  }

  method CloneEnums(src: seq<EnumSpecifier>)
    returns (dst: seq<EnumSpecifier>, m: map<EnumSpecifier, EnumSpecifier>, table: map<string, EnumSpecifier>)
    requires Distinct(src)
    ensures Pairs(m, src, dst) && Distinct(dst) && table == EnumTable(dst)
    ensures forall i | 0 <= i < |dst| :: fresh(dst[i])
    ensures EnumsCopied(dst, src)
  {
    dst, m, table := [], map[], map[];
    var k := 0;
    while k < |src|
      invariant k <= |src| && |dst| == k && m == MapOf(src[..k], dst) && table == EnumTable(dst)
      invariant Distinct(dst) && forall i | 0 <= i < k :: fresh(dst[i])
      invariant EnumsCopied(dst, src[..k])
    {
      var clone := new EnumSpecifier.Clone(src[k]);
      MapStep(src, dst, k, clone);
      m := m[src[k] := clone];
      Shorter(dst, clone);
      DistinctStep(dst, clone);
      EnumsStep(dst, src, k, clone);
      if clone.identifier != "" {
        table := Stored(table, clone.identifier, clone);
      }
      dst := dst + [clone];
      k := k + 1;
    }
    assert src[..k] == src;
    MapPairs(src, dst);
  }

  ghost predicate StructsCopied(dst: seq<StructSpecifier>, src: seq<StructSpecifier>)
    reads dst, src
  {
    |dst| == |src| && forall i | 0 <= i < |dst| ::
      SameStruct(dst[i], src[i]) && dst[i].declarations == src[i].declarations && dst[i].file == src[i].file
  }

  lemma {:induction false} StructsStep(dst: seq<StructSpecifier>, src: seq<StructSpecifier>, k: nat, x: StructSpecifier)
    requires k < |src| && StructsCopied(dst, src[..k]) && SameStruct(x, src[k])
    requires x.declarations == src[k].declarations && x.file == src[k].file
    ensures StructsCopied(dst + [x], src[..k + 1])
  {
  }

  method CloneStructs(src: seq<StructSpecifier>)
    returns (dst: seq<StructSpecifier>, m: map<StructSpecifier, StructSpecifier>, table: map<string, StructSpecifier>)
    requires Distinct(src)
    ensures Pairs(m, src, dst) && Distinct(dst) && table == StructTable(dst)
    ensures forall i | 0 <= i < |dst| :: fresh(dst[i])
    ensures StructsCopied(dst, src)
  {
    dst, m, table := [], map[], map[];
    var k := 0;
    while k < |src|
      invariant k <= |src| && |dst| == k && m == MapOf(src[..k], dst) && table == StructTable(dst)
      invariant Distinct(dst) && forall i | 0 <= i < k :: fresh(dst[i])
      invariant StructsCopied(dst, src[..k])
    {
      var clone := new StructSpecifier.Clone(src[k]);
      MapStep(src, dst, k, clone);
      m := m[src[k] := clone];
      Shorter(dst, clone);
      DistinctStep(dst, clone);
      StructsStep(dst, src, k, clone);
      if clone.identifier != "" {
        table := Stored(table, clone.identifier, clone);
      }
      dst := dst + [clone];
      k := k + 1;
    }
    assert src[..k] == src;
    MapPairs(src, dst);
  }

  method CloneFiles(src: seq<FileInfo>) returns (dst: seq<FileInfo>, m: map<FileInfo, FileInfo>)
    requires Distinct(src)
    ensures Pairs(m, src, dst) && Distinct(dst)
    ensures forall i | 0 <= i < |dst| :: fresh(dst[i]) && dst[i].name == src[i].name
  {
    dst, m := [], map[];
    var k := 0;
    while k < |src|
      invariant k <= |src| && |dst| == k && m == MapOf(src[..k], dst) && Distinct(dst)
      invariant forall i | 0 <= i < k :: fresh(dst[i]) && dst[i].name == src[i].name
    {
      var clone := new FileInfo(src[k].name);
      MapStep(src, dst, k, clone);
      DistinctStep(dst, clone);
      m := m[src[k] := clone];
      dst := dst + [clone];
      k := k + 1;
    }
    assert src[..k] == src;
    MapPairs(src, dst);
  }

  method CloneEntries(src: seq<TypedefEntry>) returns (dst: seq<TypedefEntry>)
    ensures |dst| == |src| && Distinct(dst) && forall j | 0 <= j < |dst| :: fresh(dst[j])
    ensures forall j | 0 <= j < |dst| :: dst[j].decl == src[j].decl
  {
    dst := [];
    var j := 0;
    while j < |src|
      invariant j <= |src| && |dst| == j && Distinct(dst) && forall i | 0 <= i < j :: fresh(dst[i])
      invariant forall i | 0 <= i < j :: dst[i].decl == src[i].decl
    {
      var clone := new TypedefEntry.Clone(src[j]);
      DistinctStep(dst, clone);
      dst := dst + [clone];
      j := j + 1;
    }
  }

  /** `typedef_list_clone`: the copies point to the copied list. */
  method CloneTypedefList(src: TypedefList) returns (dst: TypedefList)
    ensures fresh(dst) && ListCopied(dst, src) && Owns(dst) && dst.ref == src.ref
    ensures forall j | 0 <= j < |dst.typedefs| :: fresh(dst.typedefs[j])
  {
    var entries := CloneEntries(src.typedefs);
    dst := new TypedefList.Clone(src, entries);
    var j := 0;
    while j < |entries|
      invariant j <= |entries| && dst.ref == src.ref && forall i | 0 <= i < j :: entries[i].list == dst
    {
      assert entries[j] in entries;
      entries[j].list := dst;
      j := j + 1;
    }
  }

  /** All typedefs of some lists, in order. */
  ghost function Flat(lists: seq<TypedefList>): seq<TypedefEntry>
    decreases |lists|
  {
    if lists == [] then [] else var k := |lists| - 1; Flat(lists[..k]) + lists[k].typedefs
  }

  /** The inner loop: both lists are walked side by side, and the pairs stored. */
  method StoreTypedefs(src: seq<TypedefEntry>, dst: seq<TypedefEntry>, m0: map<TypedefEntry, TypedefEntry>,
                       table0: map<string, TypedefEntry>, ghost allSrc: seq<TypedefEntry>,
                       ghost allDst: seq<TypedefEntry>)
    returns (m: map<TypedefEntry, TypedefEntry>, table: map<string, TypedefEntry>)
    requires |src| == |dst| && |allSrc| == |allDst| && m0 == MapOf(allSrc, allDst) && table0 == TypedefTable(allDst)
    ensures m == MapOf(allSrc + src, allDst + dst) && table == TypedefTable(allDst + dst)
  {
    m, table := m0, table0;
    var j := 0;
    assert allSrc + src[..0] == allSrc && allDst + dst[..0] == allDst;
    while j < |src|
      invariant j <= |src|
      invariant m == MapOf(allSrc + src[..j], allDst + dst[..j])
      invariant table == TypedefTable(allDst + dst[..j])
    {
      MapNext(allSrc, src, allDst, dst, j);
      TableNext(allDst, dst, j);
      m := m[src[j] := dst[j]];
      table := Stored(table, dst[j].decl.name, dst[j]);
      j := j + 1;
    }
    assert src[..j] == src && dst[..j] == dst;
  }

  lemma {:induction false} MapNext<T>(xs: seq<T>, src: seq<T>, ys: seq<T>, dst: seq<T>, j: nat)
    requires |xs| == |ys| && |src| == |dst| && j < |src|
    ensures MapOf(xs + src[..j + 1], ys + dst[..j + 1]) == MapOf(xs + src[..j], ys + dst[..j])[src[j] := dst[j]]
  {
    var a, b := xs + src[..j + 1], ys + dst[..j + 1];
    assert a[..|a| - 1] == xs + src[..j] && b[..|b| - 1] == ys + dst[..j];
  }

  lemma {:induction false} TableNext(ys: seq<TypedefEntry>, dst: seq<TypedefEntry>, j: nat)
    requires j < |dst|
    ensures TypedefTable(ys + dst[..j + 1]) == Stored(TypedefTable(ys + dst[..j]), dst[j].decl.name, dst[j])
  {
    var a := ys + dst[..j + 1];
    assert a[..|a| - 1] == ys + dst[..j];
  }

  /** A copied list has the same data and copies of the same typedefs. */
  ghost predicate ListCopied(dst: TypedefList, src: TypedefList) {
    && dst.flags == src.flags && |dst.typedefs| == |src.typedefs| && Distinct(dst.typedefs)
    && forall j | 0 <= j < |dst.typedefs| :: dst.typedefs[j].decl == src.typedefs[j].decl
  }

  /** The typedefs of a list take their type from it. */
  ghost predicate Owns(l: TypedefList)
    reads l.typedefs
  {
    forall t | t in l.typedefs :: t.list == l
  }

  ghost function Entries(lists: seq<TypedefList>): set<TypedefEntry> {
    set l, t | l in lists && t in l.typedefs :: t
  }

  ghost predicate AllOwn(lists: seq<TypedefList>)
    reads Entries(lists)
  {
    forall l, t | l in lists && t in l.typedefs :: t.list == l
  }

  /** Entries that name their list as their own occur in no other list. */
  lemma {:induction false} FlatDistinct(lists: seq<TypedefList>)
    requires Distinct(lists) && AllOwn(lists) && forall l | l in lists :: Distinct(l.typedefs)
    ensures Distinct(Flat(lists)) && forall t | t in Flat(lists) :: t.list in lists
    decreases |lists|
  {
    if lists != [] {
      var k := |lists| - 1;
      FlatDistinct(lists[..k]);
      assert lists[k] in lists && lists[k] !in lists[..k];
      DistinctConcat(Flat(lists[..k]), lists[k].typedefs);
    }
  }

  lemma DistinctConcat<T>(xs: seq<T>, ys: seq<T>)
    requires Distinct(xs) && Distinct(ys) && forall x | x in xs :: x !in ys
    ensures Distinct(xs + ys)
  {
    forall i, j | 0 <= i < j < |xs + ys|
      ensures (xs + ys)[i] != (xs + ys)[j]
    {
      if i < |xs| <= j {
        assert xs[i] in xs && ys[j - |xs|] in ys;
      }
    }
  }

  lemma {:induction false} OwnStep(lists: seq<TypedefList>, l: TypedefList)
    requires AllOwn(lists) && Owns(l)
    ensures AllOwn(lists + [l])
  {
  }

  lemma {:induction false} FlatStep(lists: seq<TypedefList>, l: TypedefList)
    ensures Flat(lists + [l]) == Flat(lists) + l.typedefs
  {
    assert (lists + [l])[..|lists|] == lists;
  }

  ghost predicate ListsCopied(dst: seq<TypedefList>, src: seq<TypedefList>)
    reads dst, src
  {
    |dst| == |src| && forall i | 0 <= i < |dst| :: ListCopied(dst[i], src[i]) && dst[i].ref == src[i].ref
  }

  lemma {:induction false} ListsStep(dst: seq<TypedefList>, src: seq<TypedefList>, k: nat, l: TypedefList)
    requires k < |src| && ListsCopied(dst, src[..k]) && ListCopied(l, src[k]) && l.ref == src[k].ref
    ensures ListsCopied(dst + [l], src[..k + 1])
  {
  }

  /** One more list on both sides. */
  lemma {:induction false} Extended(src: seq<TypedefList>, k: nat, dst: seq<TypedefList>, l: TypedefList)
    requires k < |src| && ListsCopied(dst, src[..k]) && AllOwn(dst)
    requires ListCopied(l, src[k]) && Owns(l) && l.ref == src[k].ref
    ensures ListsCopied(dst + [l], src[..k + 1]) && AllOwn(dst + [l])
    ensures Flat(src[..k + 1]) == Flat(src[..k]) + src[k].typedefs && Flat(dst + [l]) == Flat(dst) + l.typedefs
  {
    PrefixStep(src, k);
    FlatStep(src[..k], src[k]);
    FlatStep(dst, l);
    ListsStep(dst, src, k, l);
    OwnStep(dst, l);
  }

  /** The body of the loop over typedef lists. */
  method CloneAndStore(src: TypedefList, m0: map<TypedefEntry, TypedefEntry>, table0: map<string, TypedefEntry>,
                       ghost allSrc: seq<TypedefEntry>, ghost allDst: seq<TypedefEntry>)
    returns (dst: TypedefList, m: map<TypedefEntry, TypedefEntry>, table: map<string, TypedefEntry>)
    requires |allSrc| == |allDst| && m0 == MapOf(allSrc, allDst) && table0 == TypedefTable(allDst)
    ensures fresh(dst) && ListCopied(dst, src) && Owns(dst) && dst.ref == src.ref
    ensures forall j | 0 <= j < |dst.typedefs| :: fresh(dst.typedefs[j])
    ensures m == MapOf(allSrc + src.typedefs, allDst + dst.typedefs) && table == TypedefTable(allDst + dst.typedefs)
  {
    dst := CloneTypedefList(src);
    m, table := StoreTypedefs(src.typedefs, dst.typedefs, m0, table0, allSrc, allDst);
  }

  method CloneTypedefLists(src: seq<TypedefList>)
    returns (dst: seq<TypedefList>, m: map<TypedefEntry, TypedefEntry>, table: map<string, TypedefEntry>)
    requires Distinct(Flat(src))
    ensures ListsCopied(dst, src) && Distinct(dst) && |Flat(dst)| == |Flat(src)|
    ensures Pairs(m, Flat(src), Flat(dst)) && table == TypedefTable(Flat(dst))
    ensures AllOwn(dst) && Distinct(Flat(dst))
    ensures (forall i | 0 <= i < |dst| :: fresh(dst[i])) && forall i | 0 <= i < |Flat(dst)| :: fresh(Flat(dst)[i])
  {
    dst, m, table := [], map[], map[];
    var k := 0;
    while k < |src|
      invariant k <= |src| && ListsCopied(dst, src[..k]) && Distinct(dst) && |Flat(dst)| == |Flat(src[..k])|
      invariant m == MapOf(Flat(src[..k]), Flat(dst)) && table == TypedefTable(Flat(dst))
      invariant AllOwn(dst)
      invariant (forall i | 0 <= i < k :: fresh(dst[i])) && forall i | 0 <= i < |Flat(dst)| :: fresh(Flat(dst)[i])
    {
      var clone;
      clone, m, table := CloneAndStore(src[k], m, table, Flat(src[..k]), Flat(dst));
      Extended(src, k, dst, clone);
      DistinctStep(dst, clone);
      dst := dst + [clone];
      k := k + 1;
    }
    assert src[..k] == src;
    MapPairs(Flat(src), Flat(dst));
    FlatDistinct(dst);
  }

  // ----- The second pass: pointers -----

  /** `REMAP_PTR`: false when the pointer is not in the map. */
  method RemapFile(files: map<FileInfo, FileInfo>, f: FileInfo?) returns (ok: bool, g: FileInfo?)
    ensures ok == (f == null || f in files)
    ensures ok ==> g == FileImage(files, f)
  {
    ok, g := true, f;
    if f != null {
      if f in files {
        g := files[f];
      } else {
        ok := false;
      }
    }
  }

  method RemapRef(m: PtrMap, r: Ref) returns (ok: bool, s: Ref)
    ensures ok == Mapped(m, r)
    ensures ok ==> s == Image(m, r)
  {
    ok, s := true, r;
    match r {
      case NoRef =>
      case EnumRef(e) =>
        ok := e in m.enums;
        if ok { s := EnumRef(m.enums[e]); }
      case StructRef(x) =>
        ok := x in m.structs;
        if ok { s := StructRef(m.structs[x]); }
      case TypedefRef(t) =>
        ok := t in m.typedefs;
        if ok { s := TypedefRef(m.typedefs[t]); }
    }
  }

  ghost predicate FileMapped(files: map<FileInfo, FileInfo>, f: FileInfo?) {
    f == null || f in files
  }

  method RemapEnums(es: seq<EnumSpecifier>, files: map<FileInfo, FileInfo>) returns (ok: bool)
    requires Distinct(es)
    modifies es
    ensures ok == forall i | 0 <= i < |es| :: FileMapped(files, old(es[i].file))
    ensures ok ==> forall i | 0 <= i < |es| :: es[i].file == FileImage(files, old(es[i].file))
  {
    var k := 0;
    while k < |es|
      invariant k <= |es|
      invariant forall i | 0 <= i < k ::
        FileMapped(files, old(es[i].file)) && es[i].file == FileImage(files, old(es[i].file))
      invariant forall i | k <= i < |es| :: es[i].file == old(es[i].file)
    {
      var g;
      ok, g := RemapFile(files, es[k].file);
      if !ok {
        return;
      }
      es[k].file := g;
      k := k + 1;
    }
    ok := true;
  }

  ghost predicate DeclsMapped(m: PtrMap, ds: seq<StructDeclaration>) {
    forall i | 0 <= i < |ds| :: Mapped(m, ds[i].ref)
  }

  function DeclImages(m: PtrMap, ds: seq<StructDeclaration>): seq<StructDeclaration>
    requires DeclsMapped(m, ds)
  {
    seq(|ds|, i requires 0 <= i < |ds| => ds[i].(ref := Image(m, ds[i].ref)))
  }

  method RemapDecls(m: PtrMap, ds: seq<StructDeclaration>) returns (ok: bool, rs: seq<StructDeclaration>)
    ensures ok == DeclsMapped(m, ds)
    ensures ok ==> rs == DeclImages(m, ds)
  {
    rs := [];
    var k := 0;
    while k < |ds|
      invariant k <= |ds| && |rs| == k
      invariant forall i | 0 <= i < k :: Mapped(m, ds[i].ref) && rs[i] == ds[i].(ref := Image(m, ds[i].ref))
    {
      var r;
      ok, r := RemapRef(m, ds[k].ref);
      if !ok {
        return;
      }
      rs := rs + [ds[k].(ref := r)];
      k := k + 1;
    }
    ok := true;
  }

  method RemapStructs(ss: seq<StructSpecifier>, m: PtrMap) returns (ok: bool)
    requires Distinct(ss)
    modifies ss
    ensures ok <==> forall i | 0 <= i < |ss| ::
      DeclsMapped(m, old(ss[i].declarations)) && FileMapped(m.files, old(ss[i].file))
    ensures ok ==> forall i | 0 <= i < |ss| ::
      ss[i].declarations == DeclImages(m, old(ss[i].declarations)) && ss[i].file == FileImage(m.files, old(ss[i].file))
  {
    var k := 0;
    while k < |ss|
      invariant k <= |ss|
      invariant forall i | 0 <= i < k :: DeclsMapped(m, old(ss[i].declarations)) && FileMapped(m.files, old(ss[i].file))
      invariant forall i | 0 <= i < k ::
        && ss[i].declarations == DeclImages(m, old(ss[i].declarations))
        && ss[i].file == FileImage(m.files, old(ss[i].file))
      invariant forall i | k <= i < |ss| ::
        ss[i].declarations == old(ss[i].declarations) && ss[i].file == old(ss[i].file)
    {
      var ds, g;
      ok, ds := RemapDecls(m, ss[k].declarations);
      if !ok {
        return;
      }
      ss[k].declarations := ds;
      ok, g := RemapFile(m.files, ss[k].file);
      if !ok {
        return;
      }
      ss[k].file := g;
      k := k + 1;
    }
    ok := true;
  }

  method RemapLists(ls: seq<TypedefList>, m: PtrMap) returns (ok: bool)
    requires Distinct(ls)
    modifies ls
    ensures ok == forall i | 0 <= i < |ls| :: Mapped(m, old(ls[i].ref))
    ensures ok ==> forall i | 0 <= i < |ls| :: ls[i].ref == Image(m, old(ls[i].ref))
  {
    var k := 0;
    while k < |ls|
      invariant k <= |ls|
      invariant forall i | 0 <= i < k :: Mapped(m, old(ls[i].ref)) && ls[i].ref == Image(m, old(ls[i].ref))
      invariant forall i | k <= i < |ls| :: ls[i].ref == old(ls[i].ref)
    {
      var r;
      ok, r := RemapRef(m, ls[k].ref);
      if !ok {
        return;
      }
      ls[k].ref := r;
      k := k + 1;
    }
    ok := true;
  }

  // ----- The whole copy -----

  class ParseInfo {
    var available: bool
    var ready: bool
    var enums: seq<EnumSpecifier>
    var structs: seq<StructSpecifier>
    var typedefLists: seq<TypedefList>
    var files: seq<FileInfo>
    var enumTable: map<string, EnumSpecifier>
    var structTable: map<string, StructSpecifier>
    var typedefTable: map<string, TypedefEntry>

    constructor (ready: bool, enums: seq<EnumSpecifier>, structs: seq<StructSpecifier>, typedefLists: seq<TypedefList>,
                 files: seq<FileInfo>, enumTable: map<string, EnumSpecifier>, structTable: map<string, StructSpecifier>,
                 typedefTable: map<string, TypedefEntry>)
      ensures available && this.ready == ready
      ensures this.enums == enums && this.structs == structs && this.typedefLists == typedefLists && this.files == files
      ensures this.enumTable == enumTable && this.structTable == structTable && this.typedefTable == typedefTable
    {
      this.available, this.ready := true, ready;
      this.enums, this.structs, this.typedefLists, this.files := enums, structs, typedefLists, files;
      this.enumTable, this.structTable, this.typedefTable := enumTable, structTable, typedefTable;
    }

    constructor Empty()
      ensures !available
    {
      available, ready := false, false;
    }
  }

  /** The nodes of a graph. */
  datatype Nodes = Nodes(
    enums: seq<EnumSpecifier>, structs: seq<StructSpecifier>, lists: seq<TypedefList>, files: seq<FileInfo>)

  function NodesOf(info: ParseInfo): Nodes
    reads info
  {
    Nodes(info.enums, info.structs, info.typedefLists, info.files)
  }

  /** No object is listed twice. */
  ghost predicate NoDuplicates(g: Nodes) {
    Distinct(g.enums) && Distinct(g.structs) && Distinct(g.files) && Distinct(Flat(g.lists))
  }

  ghost predicate Listed(g: Nodes, r: Ref) {
    match r
    case NoRef => true
    case EnumRef(e) => e in g.enums
    case StructRef(s) => s in g.structs
    case TypedefRef(t) => t in Flat(g.lists)
  }

  ghost predicate FileListed(g: Nodes, f: FileInfo?) {
    f == null || f in g.files
  }

  ghost predicate DeclsListed(g: Nodes, ds: seq<StructDeclaration>) {
    forall j | 0 <= j < |ds| :: Listed(g, ds[j].ref)
  }

  /** Every pointer of the graph leads to a node of the graph. */
  ghost predicate Closed(g: Nodes)
    reads g.enums, g.structs, g.lists
  {
    && (forall i | 0 <= i < |g.enums| :: FileListed(g, g.enums[i].file))
    && (forall i | 0 <= i < |g.structs| :: FileListed(g, g.structs[i].file))
    && (forall i | 0 <= i < |g.structs| :: DeclsListed(g, g.structs[i].declarations))
    && forall i | 0 <= i < |g.lists| :: Listed(g, g.lists[i].ref)
  }

  /** The map leads from every node of one graph to a node of its own of the other; files keep their names. */
  ghost predicate MapsNodes(m: PtrMap, src: Nodes, dst: Nodes) {
    && Pairs(m.enums, src.enums, dst.enums) && Distinct(dst.enums)
    && Pairs(m.structs, src.structs, dst.structs) && Distinct(dst.structs)
    && Pairs(m.files, src.files, dst.files) && Distinct(dst.files)
    && (forall i | 0 <= i < |src.files| :: dst.files[i].name == src.files[i].name)
    && Pairs(m.typedefs, Flat(src.lists), Flat(dst.lists)) && Distinct(dst.lists) && Distinct(Flat(dst.lists))
  }

  /** Nodes that the map relates have the same data, and their pointers lead to related nodes. */
  ghost predicate MapsPointers(m: PtrMap, src: Nodes, dst: Nodes)
    reads src.enums, dst.enums, src.structs, dst.structs, src.lists, dst.lists
  {
    && EnumsMapped(m, src.enums, dst.enums) && StructsMapped(m, src.structs, dst.structs)
    && ListsMapped(m, src.lists, dst.lists)
  }

  ghost predicate EnumsMapped(m: PtrMap, src: seq<EnumSpecifier>, dst: seq<EnumSpecifier>)
    reads src, dst
  {
    |dst| == |src| && forall i | 0 <= i < |dst| ::
      SameEnum(dst[i], src[i]) && FileMapped(m.files, src[i].file) && dst[i].file == FileImage(m.files, src[i].file)
  }

  ghost predicate StructsMapped(m: PtrMap, src: seq<StructSpecifier>, dst: seq<StructSpecifier>)
    reads src, dst
  {
    |dst| == |src| && forall i | 0 <= i < |dst| :: StructMapped(m, src[i], dst[i])
  }

  ghost predicate StructMapped(m: PtrMap, src: StructSpecifier, dst: StructSpecifier)
    reads src, dst
  {
    && SameStruct(dst, src) && FileMapped(m.files, src.file) && dst.file == FileImage(m.files, src.file)
    && DeclsMapped(m, src.declarations) && dst.declarations == DeclImages(m, src.declarations)
  }

  ghost predicate ListsMapped(m: PtrMap, src: seq<TypedefList>, dst: seq<TypedefList>)
    reads src, dst
  {
    |dst| == |src| && forall i | 0 <= i < |dst| ::
      ListCopied(dst[i], src[i]) && Mapped(m, src[i].ref) && dst[i].ref == Image(m, src[i].ref)
  }

  /** With the pairs in the map, a pointer is in the map exactly when its target is listed. */
  lemma {:induction false} ListedIsMapped(m: PtrMap, g: Nodes, r: Ref, dst: Nodes)
    requires MapsNodes(m, g, dst)
    ensures Listed(g, r) == Mapped(m, r)
  {
    match r
    case NoRef =>
    case EnumRef(e) => PairsKeys(m.enums, g.enums, dst.enums, e);
    case StructRef(s) => PairsKeys(m.structs, g.structs, dst.structs, s);
    case TypedefRef(t) => PairsKeys(m.typedefs, Flat(g.lists), Flat(dst.lists), t);
  }

  lemma {:induction false} PairsKeys<T>(m: map<T, T>, src: seq<T>, dst: seq<T>, x: T)
    requires Pairs(m, src, dst)
    ensures x in m <==> x in src
  {
    if x in src {
      var i :| 0 <= i < |src| && src[i] == x;
      assert src[i] in m;
    }
  }

  lemma {:induction false} FileListedIsMapped(m: PtrMap, g: Nodes, f: FileInfo?, dst: Nodes)
    requires MapsNodes(m, g, dst)
    ensures FileListed(g, f) == FileMapped(m.files, f)
  {
    if f != null {
      PairsKeys(m.files, g.files, dst.files, f);
    }
  }

  lemma {:induction false} DeclsListedAreMapped(m: PtrMap, g: Nodes, ds: seq<StructDeclaration>, dst: Nodes)
    requires MapsNodes(m, g, dst)
    ensures DeclsListed(g, ds) == DeclsMapped(m, ds)
  {
    forall j | 0 <= j < |ds|
      ensures Listed(g, ds[j].ref) == Mapped(m, ds[j].ref)
    {
      ListedIsMapped(m, g, ds[j].ref, dst);
    }
  }

  ghost predicate EnumsInMap(m: PtrMap, es: seq<EnumSpecifier>)
    reads es
  {
    forall i | 0 <= i < |es| :: FileMapped(m.files, es[i].file)
  }

  ghost predicate StructsInMap(m: PtrMap, ss: seq<StructSpecifier>)
    reads ss
  {
    forall i | 0 <= i < |ss| :: DeclsMapped(m, ss[i].declarations) && FileMapped(m.files, ss[i].file)
  }

  ghost predicate ListsInMap(m: PtrMap, ls: seq<TypedefList>)
    reads ls
  {
    forall i | 0 <= i < |ls| :: Mapped(m, ls[i].ref)
  }

  /** A graph is closed exactly when all of its pointers are in the map. */
  lemma {:induction false} ClosedIsMapped(m: PtrMap, g: Nodes, dst: Nodes)
    requires MapsNodes(m, g, dst)
    ensures Closed(g) == (EnumsInMap(m, g.enums) && StructsInMap(m, g.structs) && ListsInMap(m, g.lists))
  {
    forall i | 0 <= i < |g.enums|
      ensures FileListed(g, g.enums[i].file) == FileMapped(m.files, g.enums[i].file)
    {
      FileListedIsMapped(m, g, g.enums[i].file, dst);
    }
    forall i | 0 <= i < |g.structs|
      ensures FileListed(g, g.structs[i].file) == FileMapped(m.files, g.structs[i].file)
      ensures DeclsListed(g, g.structs[i].declarations) == DeclsMapped(m, g.structs[i].declarations)
    {
      FileListedIsMapped(m, g, g.structs[i].file, dst);
      DeclsListedAreMapped(m, g, g.structs[i].declarations, dst);
    }
    forall i | 0 <= i < |g.lists|
      ensures Listed(g, g.lists[i].ref) == Mapped(m, g.lists[i].ref)
    {
      ListedIsMapped(m, g, g.lists[i].ref, dst);
    }
  }

  ghost predicate Apart<T>(xs: seq<T>, ys: seq<T>) {
    forall x | x in xs :: x !in ys
  }

  lemma {:induction false} Outside<T>(dst: seq<T>, src: seq<T>)
    requires Apart(dst, src)
    ensures forall i | 0 <= i < |src| :: src[i] !in dst
  {
    forall i | 0 <= i < |src|
      ensures src[i] !in dst
    {
      assert src[i] in src;
    }
  }

  method MapEnums(dst: seq<EnumSpecifier>, ghost src: seq<EnumSpecifier>, m: PtrMap) returns (ok: bool)
    requires EnumsCopied(dst, src) && Distinct(dst) && Apart(dst, src)
    modifies dst
    ensures ok == EnumsInMap(m, src)
    ensures ok ==> EnumsMapped(m, src, dst)
  {
    Outside(dst, src);
    ok := RemapEnums(dst, m.files);
  }

  method MapStructs(dst: seq<StructSpecifier>, ghost src: seq<StructSpecifier>, m: PtrMap) returns (ok: bool)
    requires StructsCopied(dst, src) && Distinct(dst) && Apart(dst, src)
    modifies dst
    ensures ok == StructsInMap(m, src)
    ensures ok ==> StructsMapped(m, src, dst)
  {
    Outside(dst, src);
    ok := RemapStructs(dst, m);
  }

  method MapLists(dst: seq<TypedefList>, ghost src: seq<TypedefList>, m: PtrMap) returns (ok: bool)
    requires ListsCopied(dst, src) && Distinct(dst) && Apart(dst, src)
    modifies dst
    ensures ok == ListsInMap(m, src)
    ensures ok ==> ListsMapped(m, src, dst)
  {
    Outside(dst, src);
    ok := RemapLists(dst, m);
  }

  /** The second pass, over the copies; false when a pointer leads out of the graph. */
  method RemapNodes(enums: seq<EnumSpecifier>, structs: seq<StructSpecifier>, lists: seq<TypedefList>, m: PtrMap,
                    ghost oldEnums: seq<EnumSpecifier>, ghost oldStructs: seq<StructSpecifier>,
                    ghost oldLists: seq<TypedefList>)
    returns (ok: bool)
    requires EnumsCopied(enums, oldEnums) && StructsCopied(structs, oldStructs) && ListsCopied(lists, oldLists)
    requires Distinct(enums) && Distinct(structs) && Distinct(lists)
    requires Apart(enums, oldEnums) && Apart(structs, oldStructs) && Apart(lists, oldLists)
    modifies enums, structs, lists
    ensures ok == (EnumsInMap(m, oldEnums) && StructsInMap(m, oldStructs) && ListsInMap(m, oldLists))
    ensures ok ==>
      EnumsMapped(m, oldEnums, enums) && StructsMapped(m, oldStructs, structs) && ListsMapped(m, oldLists, lists)
  {
    ok := MapEnums(enums, oldEnums, m);
    if ok {
      ok := MapStructs(structs, oldStructs, m);
    }
    if ok {
      ok := MapLists(lists, oldLists, m);
    }
  }

  /** The first pass: copies of all nodes, still with the old pointers. */
  method CloneNodes(src: Nodes)
    returns (dst: Nodes, m: PtrMap, enumTable: map<string, EnumSpecifier>, structTable: map<string, StructSpecifier>,
             typedefTable: map<string, TypedefEntry>)
    requires NoDuplicates(src)
    ensures MapsNodes(m, src, dst)
    ensures enumTable == EnumTable(dst.enums) && structTable == StructTable(dst.structs)
    ensures typedefTable == TypedefTable(Flat(dst.lists)) && AllOwn(dst.lists)
    ensures EnumsCopied(dst.enums, src.enums) && StructsCopied(dst.structs, src.structs)
    ensures ListsCopied(dst.lists, src.lists)
    ensures forall i | 0 <= i < |dst.enums| :: fresh(dst.enums[i])
    ensures forall i | 0 <= i < |dst.structs| :: fresh(dst.structs[i])
    ensures forall i | 0 <= i < |dst.lists| :: fresh(dst.lists[i])
    ensures forall i | 0 <= i < |Flat(dst.lists)| :: fresh(Flat(dst.lists)[i])
    ensures forall i | 0 <= i < |dst.files| :: fresh(dst.files[i])
  {
    var enums, enumMap;
    enums, enumMap, enumTable := CloneEnums(src.enums);
    var structs, structMap;
    structs, structMap, structTable := CloneStructs(src.structs);
    var lists, typedefMap;
    lists, typedefMap, typedefTable := CloneTypedefLists(src.lists);
    var files, fileMap := CloneFiles(src.files);
    dst, m := Nodes(enums, structs, lists, files), PtrMap(enumMap, structMap, typedefMap, fileMap);
  }

  /** Both passes over the nodes. */
  method CloneGraph(src: Nodes)
    returns (dst: Nodes, ok: bool, m: PtrMap,
             enumTable: map<string, EnumSpecifier>, structTable: map<string, StructSpecifier>,
             typedefTable: map<string, TypedefEntry>)
    requires NoDuplicates(src)
    ensures ok == Closed(src) && MapsNodes(m, src, dst)
    ensures ok ==> MapsPointers(m, src, dst)
    ensures enumTable == EnumTable(dst.enums) && structTable == StructTable(dst.structs)
    ensures typedefTable == TypedefTable(Flat(dst.lists)) && AllOwn(dst.lists)
    ensures FreshNodes(dst)
  {
    dst, m, enumTable, structTable, typedefTable := CloneNodes(src);
    ok := RemapGraph(src, dst, m);
  }

  method RemapGraph(ghost src: Nodes, dst: Nodes, m: PtrMap) returns (ok: bool)
    requires MapsNodes(m, src, dst) && AllOwn(dst.lists)
    requires EnumsCopied(dst.enums, src.enums) && StructsCopied(dst.structs, src.structs)
    requires ListsCopied(dst.lists, src.lists)
    requires Apart(dst.enums, src.enums) && Apart(dst.structs, src.structs) && Apart(dst.lists, src.lists)
    modifies dst.enums, dst.structs, dst.lists
    ensures ok == Closed(src) && (ok ==> MapsPointers(m, src, dst)) && AllOwn(dst.lists)
  {
    ok := RemapNodes(dst.enums, dst.structs, dst.lists, m, src.enums, src.structs, src.lists);
    ClosedIsMapped(m, src, dst);
  }

  /**
   `clone_parse_info`: for a closed graph the copy is isomorphic to it, shares no node with it, and
   every pointer of the copy leads to the copy of what the original pointer leads to; typedefs take
   their type from their own copied list. A graph that is not closed is refused.
   */
  method CloneParseInfo(src: ParseInfo) returns (dest: ParseInfo, ok: bool, ghost m: PtrMap)
    requires src.available ==> NoDuplicates(NodesOf(src))
    ensures fresh(dest) && dest.available == src.available && ok == (src.available ==> Closed(NodesOf(src)))
    ensures src.available ==> dest.ready == src.ready && MapsNodes(m, NodesOf(src), NodesOf(dest))
    ensures src.available && ok ==> MapsPointers(m, NodesOf(src), NodesOf(dest))
    ensures src.available ==> AllOwn(dest.typedefLists) && dest.typedefTable == TypedefTable(Flat(dest.typedefLists))
    ensures src.available ==> dest.enumTable == EnumTable(dest.enums) && dest.structTable == StructTable(dest.structs)
    ensures src.available ==> FreshNodes(NodesOf(dest)) && NoDuplicates(NodesOf(dest))
  {
    m := PtrMap(map[], map[], map[], map[]);
    if !src.available {
      dest := new ParseInfo.Empty();
      return dest, true, m;
    }
    var nodes, ptrmap, enumTable, structTable, typedefTable;
    nodes, ok, ptrmap, enumTable, structTable, typedefTable := CloneGraph(NodesOf(src));
    dest := new ParseInfo(src.ready, nodes.enums, nodes.structs, nodes.lists, nodes.files, enumTable, structTable,
                          typedefTable);
    m := ptrmap;
  }

  /** None of the nodes existed before. */
  twostate predicate FreshNodes(new g: Nodes) {
    && (forall i | 0 <= i < |g.enums| :: fresh(g.enums[i]))
    && (forall i | 0 <= i < |g.structs| :: fresh(g.structs[i]))
    && (forall i | 0 <= i < |g.lists| :: fresh(g.lists[i]))
    && (forall i | 0 <= i < |Flat(g.lists)| :: fresh(Flat(g.lists)[i]))
    && forall i | 0 <= i < |g.files| :: fresh(g.files[i])
  }

  // ----- The copy looks the same from everywhere -----

  /** Where a pointer leads next: from a struct by its i-th declaration, from a typedef by its list's type. */
  ghost function Next(g: Nodes, r: Ref, i: nat): Ref
    requires Listed(g, r)
    reads g.structs, g.lists, Flat(g.lists)
  {
    match r
    case NoRef => NoRef
    case EnumRef(e) => r
    case StructRef(s) => if i < |s.declarations| then s.declarations[i].ref else NoRef
    case TypedefRef(t) => if t.list != null && t.list in g.lists then t.list.ref else NoRef
  }

  /** Typedef j of both graphs is in the same list. */
  lemma {:induction false} SameList(src: seq<TypedefList>, dst: seq<TypedefList>, j: nat) returns (i: nat)
    requires |src| == |dst| && forall k | 0 <= k < |src| :: |src[k].typedefs| == |dst[k].typedefs|
    requires j < |Flat(src)|
    ensures |Flat(src)| == |Flat(dst)|
    ensures i < |src| && Flat(src)[j] in src[i].typedefs && Flat(dst)[j] in dst[i].typedefs
    decreases |src|
  {
    var k := |src| - 1;
    SameLengths(src[..k], dst[..k]);
    if j < |Flat(src[..k])| {
      i := SameList(src[..k], dst[..k], j);
    } else {
      i := k;
      var p := j - |Flat(src[..k])|;
      assert Flat(src)[j] == src[k].typedefs[p] && Flat(dst)[j] == dst[k].typedefs[p];
    }
  }

  lemma {:induction false} SameLengths(src: seq<TypedefList>, dst: seq<TypedefList>)
    requires |src| == |dst| && forall k | 0 <= k < |src| :: |src[k].typedefs| == |dst[k].typedefs|
    ensures |Flat(src)| == |Flat(dst)|
    decreases |src|
  {
    if src != [] {
      SameLengths(src[..|src| - 1], dst[..|src| - 1]);
    }
  }

  lemma {:induction false} TypedefNext(m: PtrMap, src: Nodes, dst: Nodes, t: TypedefEntry)
    requires MapsNodes(m, src, dst) && MapsPointers(m, src, dst) && AllOwn(src.lists) && AllOwn(dst.lists)
    requires t in Flat(src.lists)
    ensures t in m.typedefs && m.typedefs[t] in Flat(dst.lists)
    ensures exists i :: 0 <= i < |src.lists| && t.list == src.lists[i] && m.typedefs[t].list == dst.lists[i]
  {
    var j :| 0 <= j < |Flat(src.lists)| && Flat(src.lists)[j] == t;
    var i := SameList(src.lists, dst.lists, j);
    assert src.lists[i] in src.lists && dst.lists[i] in dst.lists;
    assert m.typedefs[t] == Flat(dst.lists)[j];
  }

  /** One step in the copy leads to the image of where the same step leads in the original. */
  lemma {:induction false} NextMapped(m: PtrMap, src: Nodes, dst: Nodes, r: Ref, i: nat)
    requires MapsNodes(m, src, dst) && MapsPointers(m, src, dst) && AllOwn(src.lists) && AllOwn(dst.lists)
    requires Listed(src, r) && Mapped(m, r)
    ensures Listed(dst, Image(m, r)) && Mapped(m, Next(src, r, i))
    ensures Next(dst, Image(m, r), i) == Image(m, Next(src, r, i))
  {
    match r
    case NoRef =>
    case EnumRef(e) =>
      var k :| 0 <= k < |src.enums| && src.enums[k] == e;
      assert m.enums[e] == dst.enums[k];
    case StructRef(s) =>
      var k :| 0 <= k < |src.structs| && src.structs[k] == s;
      assert m.structs[s] == dst.structs[k] && StructMapped(m, src.structs[k], dst.structs[k]);
    case TypedefRef(t) =>
      TypedefNext(m, src, dst, t);
      var k :| 0 <= k < |src.lists| && t.list == src.lists[k] && m.typedefs[t].list == dst.lists[k];
      assert src.lists[k] in src.lists && dst.lists[k] in dst.lists;
  }

  /** Where a path leads. */
  ghost function Reached(g: Nodes, r: Ref, path: seq<nat>): Ref
    requires Listed(g, r) && Closed(g)
    reads g.enums, g.structs, g.lists, Flat(g.lists)
    decreases |path|
  {
    if path == [] then r
    else
      NextListed(g, r, path[0]);
      Reached(g, Next(g, r, path[0]), path[1..])
  }

  lemma {:induction false} NextListed(g: Nodes, r: Ref, i: nat)
    requires Listed(g, r) && Closed(g)
    ensures Listed(g, Next(g, r, i))
  {
    match r
    case NoRef =>
    case EnumRef(e) =>
    case StructRef(s) =>
      var k :| 0 <= k < |g.structs| && g.structs[k] == s;
      assert DeclsListed(g, g.structs[k].declarations);
    case TypedefRef(t) =>
      if t.list != null && t.list in g.lists {
        var k :| 0 <= k < |g.lists| && g.lists[k] == t.list;
        assert Listed(g, g.lists[k].ref);
      }
  }

  /** The image of a closed graph is closed. */
  lemma {:induction false} CopyClosed(m: PtrMap, src: Nodes, dst: Nodes)
    requires MapsNodes(m, src, dst) && MapsPointers(m, src, dst)
    ensures Closed(dst)
  {
    forall i | 0 <= i < |dst.enums|
      ensures FileListed(dst, dst.enums[i].file)
    {
      FileImageListed(m, src, dst, src.enums[i].file);
    }
    forall i | 0 <= i < |dst.structs|
      ensures FileListed(dst, dst.structs[i].file) && DeclsListed(dst, dst.structs[i].declarations)
    {
      assert StructMapped(m, src.structs[i], dst.structs[i]);
      FileImageListed(m, src, dst, src.structs[i].file);
      forall j | 0 <= j < |src.structs[i].declarations|
        ensures Listed(dst, dst.structs[i].declarations[j].ref)
      {
        ImageListed(m, src, dst, src.structs[i].declarations[j].ref);
      }
    }
    forall i | 0 <= i < |dst.lists|
      ensures Listed(dst, dst.lists[i].ref)
    {
      ImageListed(m, src, dst, src.lists[i].ref);
    }
  }

  lemma {:induction false} ImageListed(m: PtrMap, src: Nodes, dst: Nodes, r: Ref)
    requires MapsNodes(m, src, dst) && Mapped(m, r)
    ensures Listed(dst, Image(m, r))
  {
    match r
    case NoRef =>
    case EnumRef(e) => PairsImage(m.enums, src.enums, dst.enums, e);
    case StructRef(s) => PairsImage(m.structs, src.structs, dst.structs, s);
    case TypedefRef(t) => PairsImage(m.typedefs, Flat(src.lists), Flat(dst.lists), t);
  }

  lemma {:induction false} FileImageListed(m: PtrMap, src: Nodes, dst: Nodes, f: FileInfo?)
    requires MapsNodes(m, src, dst) && FileMapped(m.files, f)
    ensures FileListed(dst, FileImage(m.files, f))
  {
    if f != null {
      PairsImage(m.files, src.files, dst.files, f);
    }
  }

  lemma {:induction false} PairsImage<T>(m: map<T, T>, src: seq<T>, dst: seq<T>, x: T)
    requires Pairs(m, src, dst) && x in m
    ensures m[x] in dst
  {
    var i :| 0 <= i < |src| && src[i] == x;
    assert m[src[i]] == dst[i];
  }

  /** Every path through the copy leads to the copy of what the same path leads to in the original. */
  lemma {:induction false} PathsMapped(m: PtrMap, src: Nodes, dst: Nodes, r: Ref, path: seq<nat>)
    requires MapsNodes(m, src, dst) && MapsPointers(m, src, dst) && AllOwn(src.lists) && AllOwn(dst.lists)
    requires Closed(src) && Listed(src, r)
    ensures Closed(dst) && Mapped(m, r) && Listed(dst, Image(m, r)) && Mapped(m, Reached(src, r, path))
    ensures Reached(dst, Image(m, r), path) == Image(m, Reached(src, r, path))
    decreases |path|
  {
    CopyClosed(m, src, dst);
    ListedIsMapped(m, src, r, dst);
    NextMapped(m, src, dst, r, 0);
    if path != [] {
      NextMapped(m, src, dst, r, path[0]);
      NextListed(src, r, path[0]);
      PathsMapped(m, src, dst, Next(src, r, path[0]), path[1..]);
    }
  }

  // ----- The copy knows the same names -----

  lemma {:induction false} EnumNames(m: map<EnumSpecifier, EnumSpecifier>, src: seq<EnumSpecifier>,
                                     dst: seq<EnumSpecifier>, name: string)
    requires |src| == |dst| && forall i | 0 <= i < |src| ::
      src[i] in m && m[src[i]] == dst[i] && dst[i].identifier == src[i].identifier
    ensures name in EnumTable(dst) <==> name in EnumTable(src)
    ensures name in EnumTable(src) ==>
      EnumTable(src)[name] in m && EnumTable(dst)[name] == m[EnumTable(src)[name]]
    decreases |src|
  {
    if src != [] {
      EnumNames(m, src[..|src| - 1], dst[..|src| - 1], name);
    }
  }

  lemma {:induction false} StructNames(m: map<StructSpecifier, StructSpecifier>, src: seq<StructSpecifier>,
                                       dst: seq<StructSpecifier>, name: string)
    requires |src| == |dst| && forall i | 0 <= i < |src| ::
      src[i] in m && m[src[i]] == dst[i] && dst[i].identifier == src[i].identifier
    ensures name in StructTable(dst) <==> name in StructTable(src)
    ensures name in StructTable(src) ==>
      StructTable(src)[name] in m && StructTable(dst)[name] == m[StructTable(src)[name]]
    decreases |src|
  {
    if src != [] {
      StructNames(m, src[..|src| - 1], dst[..|src| - 1], name);
    }
  }

  lemma {:induction false} TypedefNames(m: map<TypedefEntry, TypedefEntry>, src: seq<TypedefEntry>,
                                        dst: seq<TypedefEntry>, name: string)
    requires |src| == |dst| && forall i | 0 <= i < |src| ::
      src[i] in m && m[src[i]] == dst[i] && dst[i].decl.name == src[i].decl.name
    ensures name in TypedefTable(dst) <==> name in TypedefTable(src)
    ensures name in TypedefTable(src) ==>
      TypedefTable(src)[name] in m && TypedefTable(dst)[name] == m[TypedefTable(src)[name]]
    decreases |src|
  {
    if src != [] {
      TypedefNames(m, src[..|src| - 1], dst[..|src| - 1], name);
    }
  }

  lemma {:induction false} FlatData(src: seq<TypedefList>, dst: seq<TypedefList>)
    requires |src| == |dst| && forall k | 0 <= k < |src| :: ListCopied(dst[k], src[k])
    ensures |Flat(src)| == |Flat(dst)| && forall j | 0 <= j < |Flat(src)| :: Flat(dst)[j].decl == Flat(src)[j].decl
    decreases |src|
  {
    if src != [] {
      FlatData(src[..|src| - 1], dst[..|src| - 1]);
    }
  }

  /** Looking up a name in the tables made from the copy gives the copy of what it means in those of the original. */
  lemma {:induction false} NamesMapped(m: PtrMap, src: Nodes, dst: Nodes, name: string)
    requires MapsNodes(m, src, dst) && MapsPointers(m, src, dst)
    ensures name in EnumTable(dst.enums) <==> name in EnumTable(src.enums)
    ensures name in EnumTable(src.enums) ==>
      EnumTable(src.enums)[name] in m.enums && EnumTable(dst.enums)[name] == m.enums[EnumTable(src.enums)[name]]
    ensures name in StructTable(dst.structs) <==> name in StructTable(src.structs)
    ensures name in StructTable(src.structs) ==>
      && StructTable(src.structs)[name] in m.structs
      && StructTable(dst.structs)[name] == m.structs[StructTable(src.structs)[name]]
    ensures name in TypedefTable(Flat(dst.lists)) <==> name in TypedefTable(Flat(src.lists))
    ensures name in TypedefTable(Flat(src.lists)) ==>
      && TypedefTable(Flat(src.lists))[name] in m.typedefs
      && TypedefTable(Flat(dst.lists))[name] == m.typedefs[TypedefTable(Flat(src.lists))[name]]
  {
    EnumNames(m.enums, src.enums, dst.enums, name);
    StructNames(m.structs, src.structs, dst.structs, name);
    FlatData(src.lists, dst.lists);
    TypedefNames(m.typedefs, Flat(src.lists), Flat(dst.lists), name);
  }
}
