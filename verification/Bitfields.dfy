/**
 The three bitfield layout engines. What an engine does to its state is a function; the
 classes are the engines themselves, proved against it. The lemmas say where fields may
 land: a cursor that never moves back, and an interval of its own for every field.
 */
module Bitfields {
  import opened IntegerMemory
  import opened CTypes

  /** The state of the engines that fill units of the field's type size. */
  datatype Unit = Unit(
    order: ByteOrder, maxAlign: nat, align: nat, offset: nat, bitOffset: nat, typeSize: nat, typeAlign: nat)

  /** The state of the engine that fills blocks of one size. */
  datatype Block = Block(
    order: ByteOrder, maxAlign: nat, align: nat, offset: nat, blockSize: nat, pos: nat, bitsLeft: int)

  datatype Engine = Generic(unit: Unit) | Microsoft(unit: Unit) | Simple(block: Block)

  function Min(a: nat, b: nat): nat {
    if a < b then a else b
  }

  function Max(a: nat, b: nat): nat {
    if a > b then a else b
  }

  // ----- What the engines do -----

  /** A declarator with its place filled in. */
  function Place(d: Declarator, offset: nat, bytes: nat, pos: int): Declarator
    requires d.ext.Bitfield?
  {
    d.(offset := offset, size := bytes, ext := Bitfield(d.ext.bits, bytes, pos))
  }

  /** The field's position counted from the least significant bit of its container. */
  function FieldPos(order: ByteOrder, bytes: nat, bitOffset: int, bits: nat): int {
    if order == LittleEndian then bitOffset else 8 * bytes - bitOffset - bits
  }

  function UnitReset(e: Unit): Unit {
    e.(bitOffset := 0, typeSize := 0, typeAlign := 0)
  }

  /** Fields have an integer type; the generic engine never ends on a field wider than its type. */
  ghost predicate UnitFits(e: Unit, typeSize: nat, typeAlign: nat) {
    IntSize(typeSize) && typeAlign > 0 && e.maxAlign > 0 && (e.typeSize > 0 ==> e.typeAlign > 0)
  }

  /** Realign when the type size changes. */
  function GenericRetype(e: Unit, typeSize: nat, typeAlign: nat): (r: Unit)
    requires UnitFits(e, typeSize, typeAlign)
    ensures r.typeSize == typeSize && r.typeAlign > 0 && r.maxAlign == e.maxAlign && r.order == e.order
  {
    if e.typeSize == typeSize then e else
      var align := Min(typeAlign, e.maxAlign);
      var delta := e.offset % align;
      e.(align := Max(align, e.align), offset := e.offset - delta, bitOffset := e.bitOffset + 8 * delta,
         typeSize := typeSize, typeAlign := align)
  }

  /** Move on by the alignment until the field fits. */
  function GenericMove(e: Unit, bits: nat): (r: Unit)
    requires e.typeAlign > 0 && bits <= 8 * e.typeSize
    ensures r.bitOffset + bits <= 8 * r.typeSize
    ensures r == e.(offset := r.offset, bitOffset := r.bitOffset)
    decreases e.bitOffset
  {
    if bits > 8 * e.typeSize - e.bitOffset then
      GenericMove(e.(offset := e.offset + e.typeAlign,
                     bitOffset := if e.bitOffset > 8 * e.typeAlign then e.bitOffset - 8 * e.typeAlign else 0), bits)
    else e
  }

  function UsedBytes(bits: nat): (n: nat)
    requires bits <= 64
    ensures IntSize(n) && bits <= 8 * n
  {
    if bits <= 8 then 1 else if bits <= 16 then 2 else if bits <= 32 then 4 else 8
  }

  /** A zero-width field closes the current unit. */
  function GenericClose(m: Unit): Unit
    requires m.typeSize > 0
  {
    if m.bitOffset > 0 then
      m.(offset := m.offset + (m.typeSize - m.offset % m.typeSize), bitOffset := 0)
    else m
  }

  function GenericPlace(m: Unit, d: Declarator): (r: (Unit, Declarator))
    requires d.ext.Bitfield? && IntSize(m.typeSize) && m.bitOffset + d.ext.bits <= 8 * m.typeSize
  {
    var next := m.bitOffset + d.ext.bits;
    var used := UsedBytes(next);
    (m.(bitOffset := next), Place(d, m.offset, used, FieldPos(m.order, used, m.bitOffset, d.ext.bits)))
  }

  function GenericPush(e: Unit, d: Declarator, typeSize: nat, typeAlign: nat): (r: (Unit, Declarator))
    requires UnitFits(e, typeSize, typeAlign) && d.ext.Bitfield? && d.ext.bits <= 8 * typeSize
  {
    var m := GenericMove(GenericRetype(e, typeSize, typeAlign), d.ext.bits);
    if d.ext.bits == 0 then (GenericClose(m), d) else GenericPlace(m, d)
  }

  function GenericFinalize(e: Unit): Unit {
    e.(offset := e.offset + (e.bitOffset + 7) / 8)
  }

  function MicrosoftRetype(e: Unit, typeSize: nat, typeAlign: nat): (r: Unit)
    requires UnitFits(e, typeSize, typeAlign)
    ensures r.typeSize == typeSize && r.maxAlign == e.maxAlign && r.order == e.order && r.typeAlign > 0
  {
    if e.typeSize == typeSize then e else
      var align := Min(typeAlign, e.maxAlign);
      var offset := e.offset + (if e.bitOffset > 0 then e.typeSize else 0);
      var delta := offset % align;
      e.(align := Max(align, e.align), offset := offset + (if delta > 0 then align - delta else 0),
         bitOffset := 0, typeSize := typeSize, typeAlign := align)
  }

  function MicrosoftNext(m: Unit): Unit {
    m.(offset := m.offset + m.typeSize, bitOffset := 0)
  }

  function MicrosoftPlace(m: Unit, d: Declarator): (Unit, Declarator)
    requires d.ext.Bitfield?
  {
    (m.(bitOffset := m.bitOffset + d.ext.bits),
     Place(d, m.offset, m.typeSize, FieldPos(m.order, m.typeSize, m.bitOffset, d.ext.bits)))
  }

  /** None when the field is wider than its type. */
  function MicrosoftPush(e: Unit, d: Declarator, typeSize: nat, typeAlign: nat): Option<(Unit, Declarator)>
    requires UnitFits(e, typeSize, typeAlign) && d.ext.Bitfield?
  {
    var m := MicrosoftRetype(e, typeSize, typeAlign);
    if d.ext.bits == 0 then Some((if m.bitOffset > 0 then MicrosoftNext(m) else m, d))
    else if d.ext.bits > 8 * m.typeSize then None
    else Some(MicrosoftPlace(if d.ext.bits > 8 * m.typeSize - m.bitOffset then MicrosoftNext(m) else m, d))
  }

  function MicrosoftFinalize(e: Unit): Unit {
    if e.bitOffset > 0 then e.(offset := e.offset + e.typeSize) else e
  }

  function SimpleReset(e: Block): Block
    requires e.blockSize > 0
  {
    e.(offset := e.offset + (e.blockSize - e.offset % e.blockSize), pos := 0, bitsLeft := 8 * e.blockSize)
  }

  function SimpleNext(e: Block): Block {
    e.(pos := e.pos + e.blockSize, bitsLeft := 8 * e.blockSize)
  }

  function SimplePlace(e: Block, d: Declarator): (Block, Declarator)
    requires d.ext.Bitfield?
  {
    (e.(bitsLeft := e.bitsLeft - d.ext.bits),
     Place(d, e.offset + e.pos, e.blockSize,
           FieldPos(e.order, e.blockSize, 8 * e.blockSize - e.bitsLeft, d.ext.bits)))
  }

  function SimplePush(e: Block, d: Declarator): (Block, Declarator)
    requires d.ext.Bitfield?
  {
    if d.ext.bits == 0 then (SimpleNext(e), d)
    else SimplePlace(if d.ext.bits > e.bitsLeft then SimpleNext(e) else e, d)
  }

  function SimpleFinalize(e: Block): Block {
    var pos := e.pos + (if e.bitsLeft != 8 * e.blockSize then e.blockSize else 0);
    e.(pos := pos, offset := e.offset + pos, align := e.blockSize)
  }

  // ----- What a layouter of any class does -----

  function ResetEngine(e: Engine): Engine
    requires e.Simple? ==> e.block.blockSize > 0
  {
    match e
    case Generic(u) => Generic(UnitReset(u))
    case Microsoft(u) => Microsoft(UnitReset(u))
    case Simple(b) => Simple(SimpleReset(b))
  }

  ghost predicate PushFits(e: Engine, d: Declarator, typeSize: nat, typeAlign: nat) {
    d.ext.Bitfield? &&
    match e
    case Generic(u) => UnitFits(u, typeSize, typeAlign) && d.ext.bits <= 8 * typeSize
    case Microsoft(u) => UnitFits(u, typeSize, typeAlign)
    case Simple(_) => true
  }

  function PushField(e: Engine, d: Declarator, typeSize: nat, typeAlign: nat): (r: Option<(Engine, Declarator)>)
    requires PushFits(e, d, typeSize, typeAlign)
  {
    match e
    case Generic(u) => var p := GenericPush(u, d, typeSize, typeAlign); Some((Generic(p.0), p.1))
    case Microsoft(u) =>
      var p := MicrosoftPush(u, d, typeSize, typeAlign);
      if p.None? then None else Some((Microsoft(p.value.0), p.value.1))
    case Simple(b) => var p := SimplePush(b, d); Some((Simple(p.0), p.1))
  }

  function FinalizeEngine(e: Engine): Engine {
    match e
    case Generic(u) => Generic(GenericFinalize(u))
    case Microsoft(u) => Microsoft(MicrosoftFinalize(u))
    case Simple(b) => Simple(SimpleFinalize(b))
  }

  function Offset(e: Engine): nat {
    match e case Generic(u) => u.offset case Microsoft(u) => u.offset case Simple(b) => b.offset
  }

  function Alignment(e: Engine): nat {
    match e case Generic(u) => u.align case Microsoft(u) => u.align case Simple(b) => b.align
  }

  function MaxAlignment(e: Engine): nat {
    match e case Generic(u) => u.maxAlign case Microsoft(u) => u.maxAlign case Simple(b) => b.maxAlign
  }

  function Order(e: Engine): ByteOrder {
    match e case Generic(u) => u.order case Microsoft(u) => u.order case Simple(b) => b.order
  }

  function WithOffset(e: Engine, n: nat): Engine {
    match e
    case Generic(u) => Generic(u.(offset := n))
    case Microsoft(u) => Microsoft(u.(offset := n))
    case Simple(b) => Simple(b.(offset := n))
  }

  function WithAlignment(e: Engine, n: nat): Engine {
    match e
    case Generic(u) => Generic(u.(align := n))
    case Microsoft(u) => Microsoft(u.(align := n))
    case Simple(b) => Simple(b.(align := n))
  }

  function WithLimits(e: Engine, maxAlign: nat, order: ByteOrder): Engine {
    match e
    case Generic(u) => Generic(u.(maxAlign := maxAlign, order := order))
    case Microsoft(u) => Microsoft(u.(maxAlign := maxAlign, order := order))
    case Simple(b) => Simple(b.(maxAlign := maxAlign, order := order))
  }

  // ----- The engines -----

  class GenericEngine {
    var byteOrder: ByteOrder
    var maxAlign: nat
    var align: nat
    var offset: nat
    var bitOffset: nat
    var curTypeSize: nat
    var curTypeAlign: nat

    constructor ()
      ensures State().order == LittleEndian
    {
      byteOrder := LittleEndian;
    }

    ghost function State(): Unit
      reads this
    {
      Unit(byteOrder, maxAlign, align, offset, bitOffset, curTypeSize, curTypeAlign)
    }

    method Reset()
      modifies this
      ensures State() == UnitReset(old(State()))
    {
      bitOffset, curTypeSize, curTypeAlign := 0, 0, 0;
    }

    method ChangeType(typeSize: nat, typeAlign: nat)
      requires UnitFits(State(), typeSize, typeAlign)
      modifies this
      ensures State() == GenericRetype(old(State()), typeSize, typeAlign)
    {
      if curTypeSize != typeSize {
        var newAlign := Min(typeAlign, maxAlign);
        var delta := offset % newAlign;
        if newAlign > align {
          align := newAlign;
        }
        offset := offset - delta;
        bitOffset := bitOffset + 8 * delta;
        curTypeSize := typeSize;
        curTypeAlign := newAlign;
      }
    }

    method MoveUntilFits(bits: nat)
      requires curTypeAlign > 0 && bits <= 8 * curTypeSize
      modifies this
      ensures State() == GenericMove(old(State()), bits)
    {
      while bits > 8 * curTypeSize - bitOffset
        invariant State() == old(State()).(offset := offset, bitOffset := bitOffset)
        invariant curTypeAlign > 0 && bits <= 8 * curTypeSize
        invariant GenericMove(State(), bits) == GenericMove(old(State()), bits)
        decreases bitOffset
      {
        offset := offset + curTypeAlign;
        if bitOffset > 8 * curTypeAlign {
          bitOffset := bitOffset - 8 * curTypeAlign;
        } else {
          bitOffset := 0;
        }
      }
    }

    method Push(d: Declarator, typeSize: nat, typeAlign: nat) returns (r: Declarator)
      requires UnitFits(State(), typeSize, typeAlign) && d.ext.Bitfield? && d.ext.bits <= 8 * typeSize
      modifies this
      ensures (State(), r) == GenericPush(old(State()), d, typeSize, typeAlign)
    {
      var bits := d.ext.bits;
      r := d;
      ChangeType(typeSize, typeAlign);
      MoveUntilFits(bits);
      if bits == 0 {
        if bitOffset > 0 {
          offset := offset + (curTypeSize - offset % curTypeSize);
          bitOffset := 0;
        }
      } else {
        var newBitOffset := bitOffset + bits;
        var used := UsedBytes(newBitOffset);
        var pos := if byteOrder == LittleEndian then bitOffset else 8 * used - bitOffset - bits;
        r := d.(offset := offset, size := used, ext := Bitfield(bits, used, pos));
        bitOffset := newBitOffset;
      }
    }

    method Finalize()
      modifies this
      ensures State() == GenericFinalize(old(State()))
    {
      offset := offset + (bitOffset + 7) / 8;
    }
  }

  class MicrosoftEngine {
    var byteOrder: ByteOrder
    var maxAlign: nat
    var align: nat
    var offset: nat
    var bitOffset: nat
    var curTypeSize: nat
    var curTypeAlign: nat

    constructor ()
      ensures State().order == LittleEndian
    {
      byteOrder := LittleEndian;
    }

    ghost function State(): Unit
      reads this
    {
      Unit(byteOrder, maxAlign, align, offset, bitOffset, curTypeSize, curTypeAlign)
    }

    method Reset()
      modifies this
      ensures State() == UnitReset(old(State()))
    {
      bitOffset, curTypeSize, curTypeAlign := 0, 0, 0;
    }

    method ChangeType(typeSize: nat, typeAlign: nat)
      requires UnitFits(State(), typeSize, typeAlign)
      modifies this
      ensures State() == MicrosoftRetype(old(State()), typeSize, typeAlign)
    {
      if curTypeSize != typeSize {
        var newAlign := Min(typeAlign, maxAlign);
        if newAlign > align {
          align := newAlign;
        }
        if bitOffset > 0 {
          offset := offset + curTypeSize;
          bitOffset := 0;
        }
        var delta := offset % newAlign;
        if delta > 0 {
          offset := offset + (newAlign - delta);
          bitOffset := 0;
        }
        curTypeSize := typeSize;
        curTypeAlign := newAlign;
      }
    }

    method Push(d: Declarator, typeSize: nat, typeAlign: nat) returns (ok: bool, r: Declarator)
      requires UnitFits(State(), typeSize, typeAlign) && d.ext.Bitfield?
      modifies this
      ensures ok == MicrosoftPush(old(State()), d, typeSize, typeAlign).Some?
      ensures ok ==> MicrosoftPush(old(State()), d, typeSize, typeAlign) == Some((State(), r))
    {
      var bits := d.ext.bits;
      ok, r := true, d;
      ChangeType(typeSize, typeAlign);
      if bits == 0 {
        if bitOffset > 0 {
          offset := offset + curTypeSize;
          bitOffset := 0;
        }
      } else {
        if bits > 8 * curTypeSize - bitOffset {
          if bits > 8 * curTypeSize {
            ok := false;
            return;
          }
          offset := offset + curTypeSize;
          bitOffset := 0;
        }
        var pos := if byteOrder == LittleEndian then bitOffset else 8 * curTypeSize - bitOffset - bits;
        bitOffset := bitOffset + bits;
        r := d.(offset := offset, size := curTypeSize, ext := Bitfield(bits, curTypeSize, pos));
      }
    }

    method Finalize()
      modifies this
      ensures State() == MicrosoftFinalize(old(State()))
    {
      if bitOffset > 0 {
        offset := offset + curTypeSize;
      }
    }
  }

  class SimpleEngine {
    var byteOrder: ByteOrder
    var maxAlign: nat
    var align: nat
    var offset: nat
    var blockSize: nat
    var pos: nat
    var bitsLeft: int

    constructor ()
      ensures State().order == LittleEndian && State().blockSize == 4
    {
      byteOrder := LittleEndian;
      blockSize := 4;
    }

    ghost function State(): Block
      reads this
    {
      Block(byteOrder, maxAlign, align, offset, blockSize, pos, bitsLeft)
    }

    method Reset()
      requires blockSize > 0
      modifies this
      ensures State() == SimpleReset(old(State()))
    {
      offset := offset + (blockSize - offset % blockSize);
      pos := 0;
      bitsLeft := 8 * blockSize;
    }

    method Push(d: Declarator) returns (r: Declarator)
      requires d.ext.Bitfield?
      modifies this
      ensures (State(), r) == SimplePush(old(State()), d)
    {
      var bits := d.ext.bits;
      r := d;
      if bits == 0 {
        pos := pos + blockSize;
        bitsLeft := 8 * blockSize;
      } else {
        if bits > bitsLeft {
          pos := pos + blockSize;
          bitsLeft := 8 * blockSize;
        }
        var fieldPos := if byteOrder == LittleEndian then 8 * blockSize - bitsLeft else bitsLeft - bits;
        r := d.(offset := offset + pos, size := blockSize, ext := Bitfield(bits, blockSize, fieldPos));
        bitsLeft := bitsLeft - bits;
      }
    }

    method Finalize()
      modifies this
      ensures State() == SimpleFinalize(old(State()))
    {
      if bitsLeft != 8 * blockSize {
        pos := pos + blockSize;
      }
      offset := offset + pos;
      align := blockSize;
    }
  }

  datatype EngineClass = GenericClass | MicrosoftClass | SimpleClass

  /** A layouter: an engine behind a method table. */
  class BitfieldLayouter {
    const cls: EngineClass
    const generic: GenericEngine
    const microsoft: MicrosoftEngine
    const simple: SimpleEngine

    constructor (cls: EngineClass)
      ensures fresh(Repr()) && this.cls == cls
    {
      this.cls := cls;
      generic := new GenericEngine();
      microsoft := new MicrosoftEngine();
      simple := new SimpleEngine();
    }

    ghost function Repr(): set<object> {
      {generic, microsoft, simple}
    }

    ghost function State(): Engine
      reads Repr()
    {
      match cls
      case GenericClass => Generic(generic.State())
      case MicrosoftClass => Microsoft(microsoft.State())
      case SimpleClass => Simple(simple.State())
    }

    method Reset()
      requires State().Simple? ==> State().block.blockSize > 0
      modifies Repr()
      ensures State() == ResetEngine(old(State()))
    {
      match cls {
        case GenericClass => generic.Reset();
        case MicrosoftClass => microsoft.Reset();
        case SimpleClass => simple.Reset();
      }
    }

    method Push(d: Declarator, typeSize: nat, typeAlign: nat) returns (ok: bool, r: Declarator)
      requires PushFits(State(), d, typeSize, typeAlign)
      modifies Repr()
      ensures ok == PushField(old(State()), d, typeSize, typeAlign).Some?
      ensures ok ==> PushField(old(State()), d, typeSize, typeAlign) == Some((State(), r))
    {
      ok := true;
      match cls {
        case GenericClass => r := generic.Push(d, typeSize, typeAlign);
        case MicrosoftClass => ok, r := microsoft.Push(d, typeSize, typeAlign);
        case SimpleClass => r := simple.Push(d);
      }
    }

    method Finalize()
      modifies Repr()
      ensures State() == FinalizeEngine(old(State()))
    {
      match cls {
        case GenericClass => generic.Finalize();
        case MicrosoftClass => microsoft.Finalize();
        case SimpleClass => simple.Finalize();
      }
    }

    method GetOffset() returns (n: nat)
      ensures n == Offset(State())
    {
      match cls {
        case GenericClass => n := generic.offset;
        case MicrosoftClass => n := microsoft.offset;
        case SimpleClass => n := simple.offset;
      }
    }

    method GetAlign() returns (n: nat)
      ensures n == Alignment(State())
    {
      match cls {
        case GenericClass => n := generic.align;
        case MicrosoftClass => n := microsoft.align;
        case SimpleClass => n := simple.align;
      }
    }

    method SetOffset(n: nat)
      modifies Repr()
      ensures State() == WithOffset(old(State()), n)
    {
      match cls {
        case GenericClass => generic.offset := n;
        case MicrosoftClass => microsoft.offset := n;
        case SimpleClass => simple.offset := n;
      }
    }

    method SetAlign(n: nat)
      modifies Repr()
      ensures State() == WithAlignment(old(State()), n)
    {
      match cls {
        case GenericClass => generic.align := n;
        case MicrosoftClass => microsoft.align := n;
        case SimpleClass => simple.align := n;
      }
    }

    method SetLimits(maxAlign: nat, order: ByteOrder)
      modifies Repr()
      ensures State() == WithLimits(old(State()), maxAlign, order)
    {
      match cls {
        case GenericClass => generic.maxAlign, generic.byteOrder := maxAlign, order;
        case MicrosoftClass => microsoft.maxAlign, microsoft.byteOrder := maxAlign, order;
        case SimpleClass => simple.maxAlign, simple.byteOrder := maxAlign, order;
      }
    }
  }
}
