/**
 Exactly where a bitfield goes, in terms of the engine's state before the push: the first place it fits.
 */
module BitfieldPlaces {
  import opened IntegerMemory
  import opened CTypes
  import opened Bitfields
  import opened BitfieldSafety

  // ----- The generic engine -----

  /** Where a unit can start: at a multiple of the alignment, not before the one the engine is in. */
  ghost predicate UnitStart(e: Unit, align: nat, base: nat)
    requires align > 0
  {
    base % align == 0 && e.offset < base + align
  }

  /** A unit of the type at base has room for the bits, behind all that are in use. */
  ghost predicate RoomAt(e: Unit, typeSize: nat, bits: nat, base: nat) {
    bits <= 8 * typeSize && 8 * e.offset + e.bitOffset + bits <= 8 * (base + typeSize)
  }

  /** The first unit that has room. */
  ghost predicate FirstRoom(e: Unit, typeSize: nat, align: nat, bits: nat, base: nat)
    requires align > 0
  {
    && UnitStart(e, align, base) && RoomAt(e, typeSize, bits, base)
    && forall b: nat | UnitStart(e, align, b) && b < base :: !RoomAt(e, typeSize, bits, b)
  }

  /** The alignment of a type under the engine's limit. */
  ghost function Limited(e: Unit, typeSize: nat): nat {
    if typeSize < e.maxAlign then typeSize else e.maxAlign
  }

  /** The struct's alignment after a field of the type: a new type can only raise it. */
  ghost function WidenedAlign(e: Unit, typeSize: nat): nat {
    if e.typeSize != typeSize && Limited(e, typeSize) > e.align then Limited(e, typeSize) else e.align
  }

  /** The bits of the unit at base that are in use. */
  ghost function UsedAt(e: Unit, base: nat): nat {
    if 8 * e.offset + e.bitOffset > 8 * base then 8 * e.offset + e.bitOffset - 8 * base else 0
  }

  lemma NextMultiple(b: nat, n: nat, align: nat)
    requires align > 0 && b % align == 0 && n % align == 0 && b > n
    ensures b >= n + align
  {
    var p, q := b / align, n / align;
    Bits.DivMod(b, align);
    Bits.DivMod(n, align);
    if p <= q {
      Bits.MulLe(p, q, align);
    } else {
      Bits.MulLe(q + 1, p, align);
      Bits.Distribute(q, 1, align);
    }
  }

  /** The search for room stops at the first unit that has it. */
  lemma MoveFirst(e: Unit, bits: nat)
    requires e.typeAlign > 0 && e.offset % e.typeAlign == 0 && bits <= 8 * e.typeSize
    ensures var m := GenericMove(e, bits);
      && m.offset >= e.offset && m.bitOffset == UsedAt(e, m.offset)
      && FirstRoom(e, e.typeSize, e.typeAlign, bits, m.offset)
    decreases e.bitOffset
  {
    if bits > 8 * e.typeSize - e.bitOffset {
      var next := e.(offset := e.offset + e.typeAlign,
                     bitOffset := if e.bitOffset > 8 * e.typeAlign then e.bitOffset - 8 * e.typeAlign else 0);
      Bits.ModShift(e.offset, 1, e.typeAlign);
      MoveFirst(next, bits);
      forall b: nat | UnitStart(e, e.typeAlign, b) && b < GenericMove(e, bits).offset
        ensures !RoomAt(e, e.typeSize, bits, b)
      {
        if b > e.offset {
          NextMultiple(b, e.offset, e.typeAlign);
          assert UnitStart(next, e.typeAlign, b);
        } else if b < e.offset {
          NextMultiple(e.offset, b, e.typeAlign);
        }
      }
    } else {
      forall b: nat | UnitStart(e, e.typeAlign, b) && b < e.offset
        ensures false
      {
        NextMultiple(e.offset, b, e.typeAlign);
      }
    }
  }

  /** The first multiple to look at after a change of type is the last one not past the engine's offset. */
  lemma {:induction false} RetypedRoom(e: Unit, typeSize: nat, bits: nat)
    requires Sane(Generic(e)) && IntSize(typeSize) && bits <= 8 * typeSize
    ensures UnitFits(e, typeSize, typeSize)
    ensures var t := GenericRetype(e, typeSize, typeSize);
      var m := GenericMove(t, bits);
      && t == e.(offset := t.offset, bitOffset := t.bitOffset, typeSize := typeSize, typeAlign := Limited(e, typeSize),
                 align := WidenedAlign(e, typeSize))
      && m == t.(offset := m.offset, bitOffset := m.bitOffset)
      && m.bitOffset == UsedAt(e, m.offset) && FirstRoom(e, typeSize, Limited(e, typeSize), bits, m.offset)
  {
    RetypeKeepsCursor(e, typeSize);
    var t, align := GenericRetype(e, typeSize, typeSize), Limited(e, typeSize);
    MoveFirst(t, bits);
    assert t.offset <= e.offset < t.offset + align;
    forall b: nat
      ensures UnitStart(e, align, b) <==> UnitStart(t, align, b)
    {
      if b % align == 0 && b < t.offset {
        NextMultiple(t.offset, b, align);
      }
    }
  }

  /** A field of the generic engine: in the first unit that has room for it, at the first free bit there, in
      the smallest container that reaches it; its position is counted from the end that the order says. */
  lemma {:induction false} GenericPlaces(e: Unit, d: Declarator, typeSize: nat)
    requires Sane(Generic(e)) && IntSize(typeSize) && d.ext.Bitfield? && 0 < d.ext.bits <= 8 * typeSize
    ensures UnitFits(e, typeSize, typeSize)
    ensures var (u, r) := GenericPush(e, d, typeSize, typeSize);
      var used := UsedAt(e, u.offset);
      && FirstRoom(e, typeSize, Limited(e, typeSize), d.ext.bits, u.offset)
      && u.bitOffset == used + d.ext.bits
      && r == d.(offset := u.offset, size := r.size, ext := r.ext)
      && IntSize(r.size) && used + d.ext.bits <= 8 * r.size
      && (forall n: nat | IntSize(n) && n < r.size :: 8 * n < used + d.ext.bits)
      && r.ext == Bitfield(d.ext.bits, r.size,
                           if e.order == LittleEndian then used else 8 * r.size - used - d.ext.bits)
  {
    RetypedRoom(e, typeSize, d.ext.bits);
  }

  /** What else a push does to the generic engine. */
  lemma {:induction false} GenericRest(e: Unit, d: Declarator, typeSize: nat)
    requires Sane(Generic(e)) && IntSize(typeSize) && d.ext.Bitfield? && d.ext.bits <= 8 * typeSize
    ensures UnitFits(e, typeSize, typeSize)
    ensures var u, align := GenericPush(e, d, typeSize, typeSize).0, Limited(e, typeSize);
      && u.order == e.order && u.maxAlign == e.maxAlign && u.typeSize == typeSize && u.typeAlign == align
      && u.align == WidenedAlign(e, typeSize)
  {
    RetypedRoom(e, typeSize, d.ext.bits);
  }

  /** A zero-width field of the generic engine: if the first unit with room for nothing is in use, the next
      multiple of the type size. */
  lemma {:induction false} GenericCloses(e: Unit, d: Declarator, typeSize: nat, base: nat)
    requires Sane(Generic(e)) && IntSize(typeSize) && ZeroWidth(d)
    requires FirstRoom(e, typeSize, Limited(e, typeSize), 0, base)
    ensures UnitFits(e, typeSize, typeSize)
    ensures var (u, r) := GenericPush(e, d, typeSize, typeSize);
      && r == d && u.bitOffset == 0
      && if UsedAt(e, base) == 0 then u.offset == base
         else base < u.offset <= base + typeSize && u.offset % typeSize == 0
  {
    RetypedRoom(e, typeSize, 0);
    var m := GenericMove(GenericRetype(e, typeSize, typeSize), 0);
    assert m.offset == base;
    NextUp(base, typeSize);
  }

  lemma NextUp(n: nat, size: nat)
    requires size > 0
    ensures var up := n + (size - n % size); n < up <= n + size && up % size == 0
  {
    Bits.DivMod(n, size);
    Bits.Distribute(n / size, 1, size);
    Bits.DivModUnique(n + (size - n % size), size, n / size + 1, 0);
  }

  // ----- The Microsoft engine -----

  /** A field of the Microsoft engine. In a unit of its type: the rest of it, or else the very next one. For a
      type of another size, the unit is left and the next multiple of the alignment taken. */
  lemma {:induction false} MicrosoftPlaces(e: Unit, d: Declarator, typeSize: nat)
    requires Sane(Microsoft(e)) && IntSize(typeSize) && d.ext.Bitfield? && 0 < d.ext.bits <= 8 * typeSize
    ensures UnitFits(e, typeSize, typeSize) && MicrosoftPush(e, d, typeSize, typeSize).Some?
    ensures var (u, r) := MicrosoftPush(e, d, typeSize, typeSize).value;
      var fits := e.bitOffset + d.ext.bits <= 8 * typeSize;
      var free := if e.bitOffset > 0 then e.offset + e.typeSize else e.offset;
      var used := if e.typeSize == typeSize && fits then e.bitOffset else 0;
      && (e.typeSize == typeSize ==> r.offset == if fits then e.offset else e.offset + typeSize)
      && (e.typeSize != typeSize ==>
            free <= r.offset < free + Limited(e, typeSize) && r.offset % Limited(e, typeSize) == 0)
      && r == d.(offset := r.offset, size := typeSize, ext := r.ext)
      && r.ext == Bitfield(d.ext.bits, typeSize,
                           if e.order == LittleEndian then used else 8 * typeSize - used - d.ext.bits)
      && u.offset == r.offset && u.bitOffset == used + d.ext.bits && u.typeSize == typeSize
      && u.align == WidenedAlign(e, typeSize)
  {
    if e.typeSize != typeSize {
      FirstUp(if e.bitOffset > 0 then e.offset + e.typeSize else e.offset, Limited(e, typeSize));
    }
  }

  lemma FirstUp(n: nat, align: nat)
    requires align > 0
    ensures var delta := n % align;
      var up := n + (if delta > 0 then align - delta else 0);
      n <= up < n + align && up % align == 0
  {
    if n % align > 0 {
      NextUp(n, align);
    }
  }

  /** A zero-width field of the Microsoft engine: the unit is left if it is in use. */
  lemma {:induction false} MicrosoftCloses(e: Unit, d: Declarator, typeSize: nat)
    requires Sane(Microsoft(e)) && IntSize(typeSize) && ZeroWidth(d)
    ensures UnitFits(e, typeSize, typeSize) && MicrosoftPush(e, d, typeSize, typeSize).Some?
    ensures var (u, r) := MicrosoftPush(e, d, typeSize, typeSize).value;
      var free := if e.bitOffset > 0 then e.offset + e.typeSize else e.offset;
      && r == d && u.bitOffset == 0 && u.typeSize == typeSize
      && (e.typeSize == typeSize ==> u.offset == free)
      && (e.typeSize != typeSize ==>
            free <= u.offset < free + Limited(e, typeSize) && u.offset % Limited(e, typeSize) == 0)
  {
    if e.typeSize != typeSize {
      FirstUp(if e.bitOffset > 0 then e.offset + e.typeSize else e.offset, Limited(e, typeSize));
    }
  }

  // ----- The simple engine -----

  /** A field of the simple engine: in the current block if it fits, or else in the next one. */
  lemma {:induction false} SimplePlaces(e: Block, d: Declarator)
    requires Sane(Simple(e)) && d.ext.Bitfield? && 0 < d.ext.bits <= 8 * e.blockSize
    ensures var (u, r) := SimplePush(e, d);
      var fits := d.ext.bits <= e.bitsLeft;
      var used := if fits then 8 * e.blockSize - e.bitsLeft else 0;
      && r == d.(offset := e.offset + e.pos + (if fits then 0 else e.blockSize), size := e.blockSize, ext := r.ext)
      && r.ext == Bitfield(d.ext.bits, e.blockSize,
                           if e.order == LittleEndian then used else 8 * e.blockSize - used - d.ext.bits)
      && u.offset + u.pos == r.offset && u.bitsLeft == 8 * e.blockSize - used - d.ext.bits && u.align == e.align
  {
  }

  /** A zero-width field of the simple engine starts the next block, even if nothing is in the current one. */
  lemma {:induction false} SimpleCloses(e: Block, d: Declarator)
    requires Sane(Simple(e)) && ZeroWidth(d)
    ensures var (u, r) := SimplePush(e, d);
      && r == d && u.offset + u.pos == e.offset + e.pos + e.blockSize
      && u.bitsLeft == 8 * e.blockSize && u.align == e.align
  {
  }

  // ----- The end of a run -----

  /** After a field, a run of the generic engine ends with the field's last byte, and a run of the others with
      the field's container. */
  lemma {:induction false} RunEnds(e: Engine, d: Declarator, typeSize: nat)
    requires Sane(e) && FieldOk(e, d, typeSize) && d.ext.bits > 0
    ensures PushFits(e, d, typeSize, typeSize) && PushField(e, d, typeSize, typeSize).Some?
    ensures var (u, r) := PushField(e, d, typeSize, typeSize).value;
      var end := Offset(FinalizeEngine(u));
      if e.Generic? then 8 * (end - 1) < FieldSpan(Order(e), r).hi <= 8 * end else end == r.offset + r.size
  {
    PushLands(e, d, typeSize);
    match e
    case Generic(u) => FinalizeLands(PushField(e, d, typeSize, typeSize).value.0);
    case Microsoft(u) => MicrosoftPlaces(u, d, typeSize);
    case Simple(b) => SimplePlaces(b, d);
  }

  /** A run in which nothing takes room ends where it starts; only the simple engine goes by its blocks. */
  lemma {:induction false} EmptyRunEnds(e: Engine)
    requires match e
      case Generic(u) => u.bitOffset == 0
      case Microsoft(u) => u.bitOffset == 0
      case Simple(b) => b.bitsLeft == 8 * b.blockSize
    ensures Offset(FinalizeEngine(e)) == if e.Simple? then e.block.offset + e.block.pos else Offset(e)
    ensures Alignment(FinalizeEngine(e)) == if e.Simple? then e.block.blockSize else Alignment(e)
  {
  }
}
