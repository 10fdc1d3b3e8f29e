/**
 C types as the library keeps them: a tree of type specifiers, declarators and compounds
 whose layout results (offsets, sizes, alignments) are fields that start out unset.
 */
module CTypes {
  import opened IntegerMemory

  datatype Option<T> = None | Some(value: T)

  datatype Flag = VOID | CHAR | SHORT | INT | LONG | FLOAT | DOUBLE | SIGNED | UNSIGNED | LONGLONG

  datatype Extent =
    | Plain
    | Array(dims: seq<nat>)
    | Bitfield(bits: nat, bytes: int, pos: int)

  datatype Declarator = Declarator(
    name: string, pointer: bool, ext: Extent, offset: int, size: int, itemSize: int, order: Option<ByteOrder>)

  datatype TypeSpec =
    | Basic(flags: set<Flag>)
    | Enum(sizes: seq<nat>, signed: bool, order: Option<ByteOrder>)
    | TypeRef(typedef: Typedef)
    | Compound(body: Struct)

  datatype Typedef = Typedef(typ: TypeSpec, decl: Declarator)

  /** A declaration without declarators is an unnamed struct or union. */
  datatype StructDecl = StructDecl(typ: TypeSpec, declarators: seq<Declarator>, offset: int, size: int)

  /** A compound without declarations is one that was never defined; align is 0 until it is laid out. */
  datatype Struct = Struct(
    isUnion: bool, pack: nat, decls: seq<StructDecl>, align: nat, size: nat, order: Option<ByteOrder>)

  function Dims(d: Declarator): seq<nat> {
    if d.ext.Array? then d.ext.dims else []
  }

  function Product(dims: seq<nat>): nat {
    if dims == [] then 1 else dims[0] * Product(dims[1..])
  }

  /** What a member expression is relative to: a type, or a declarator with some dimensions indexed. */
  datatype MemberInfo = MemberInfo(typ: TypeSpec, decl: Option<Declarator>, level: nat, size: nat)
}
