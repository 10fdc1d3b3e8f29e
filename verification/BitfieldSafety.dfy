/**
 Where the bitfield engines place fields, over every sequence of pushes.
 */
module BitfieldSafety {
  import opened IntegerMemory
  import opened CTypes
  import opened Bitfields
  import opened Intervals

  /** The first bit, counted from the start of the compound, that no field has used. */
  function Cursor(e: Engine): int {
    match e
    case Generic(u) => 8 * u.offset + u.bitOffset
    case Microsoft(u) => 8 * u.offset + u.bitOffset
    case Simple(b) => 8 * (b.offset + b.pos + b.blockSize) - b.bitsLeft
  }

  /** What every run of pushes keeps. */
  ghost predicate Sane(e: Engine) {
    match e
    case Generic(u) => u.maxAlign > 0 && if u.typeSize == 0 then u.bitOffset == 0 else UnitSane(u)
    case Microsoft(u) =>
      u.maxAlign > 0 && u.bitOffset <= 8 * u.typeSize && (u.typeSize > 0 ==> u.typeAlign > 0)
    case Simple(b) => b.blockSize > 0 && 0 <= b.bitsLeft <= 8 * b.blockSize
  }

  ghost predicate UnitSane(u: Unit)
    requires u.maxAlign > 0
  {
    && IntSize(u.typeSize) && u.typeAlign == Min(u.typeSize, u.maxAlign)
    && u.offset % u.typeAlign == 0 && u.bitOffset <= 8 * u.typeSize
  }

  /**
   The fields a C program can declare: of an integer type, whose alignment is its size, and no
   wider than it. The simple engine also needs them no wider than its block, and zero-width fields
   need the generic engine not to limit the alignment of their type.
   */
  ghost predicate FieldOk(e: Engine, d: Declarator, typeSize: nat) {
    && d.ext.Bitfield? && IntSize(typeSize) && d.ext.bits <= 8 * typeSize
    && (e.Simple? ==> d.ext.bits <= 8 * e.block.blockSize)
    && (e.Generic? && d.ext.bits == 0 ==> typeSize <= e.unit.maxAlign)
  }

  /** The bits of a placed field: from the least significant bit on in little endian order, and from
      the most significant bit on in big endian order. */
  function FieldSpan(order: ByteOrder, d: Declarator): Span
    requires d.ext.Bitfield?
  {
    var lo := 8 * d.offset + if order == LittleEndian then d.ext.pos else 8 * d.ext.bytes - d.ext.pos - d.ext.bits;
    Span(lo, lo + d.ext.bits)
  }

  /** The field lies in a container of its own type or smaller. */
  ghost predicate InContainer(d: Declarator) {
    && d.ext.Bitfield? && d.offset >= 0 && d.ext.bytes == d.size > 0
    && 0 <= d.ext.pos && d.ext.pos + d.ext.bits <= 8 * d.size
  }

  /** What pushing does not change. */
  ghost predicate SameKind(e: Engine, e': Engine) {
    && e.Generic? == e'.Generic? && e.Microsoft? == e'.Microsoft?
    && MaxAlignment(e) == MaxAlignment(e') && Order(e) == Order(e')
    && (e.Simple? ==> e.block.blockSize == e'.block.blockSize)
  }

  /** e' and r follow from pushing d on e as they should. */
  ghost predicate Lands(e: Engine, d: Declarator, e': Engine, r: Declarator) {
    && Sane(e') && SameKind(e, e') && Alignment(e) <= Alignment(e')
    && r.ext.Bitfield? && d.ext.Bitfield? && r.ext.bits == d.ext.bits
    && if d.ext.bits == 0 then r == d && Cursor(e) <= Cursor(e')
       else InContainer(r) && Cursor(e) <= FieldSpan(Order(e), r).lo && FieldSpan(Order(e), r).hi == Cursor(e')
  }

  lemma MoveAhead(e: Unit, bits: nat)
    requires e.typeAlign > 0 && bits <= 8 * e.typeSize && e.offset % e.typeAlign == 0
    ensures var m := GenericMove(e, bits);
      8 * e.offset + e.bitOffset <= 8 * m.offset + m.bitOffset && m.offset % m.typeAlign == 0
    decreases e.bitOffset
  {
    if bits > 8 * e.typeSize - e.bitOffset {
      Bits.ModShift(e.offset, 1, e.typeAlign);
      MoveAhead(e.(offset := e.offset + e.typeAlign,
                   bitOffset := if e.bitOffset > 8 * e.typeAlign then e.bitOffset - 8 * e.typeAlign else 0), bits);
    }
  }

  lemma RoundedDown(n: nat, align: nat)
    requires align > 0
    ensures n % align <= n && (n - n % align) % align == 0
  {
    Bits.DivModUnique(n - n % align, align, n / align, 0);
    Bits.DivLe(n, align);
  }

  lemma {:induction false} RetypeKeepsCursor(e: Unit, typeSize: nat)
    requires Sane(Generic(e)) && IntSize(typeSize)
    ensures var m := GenericRetype(e, typeSize, typeSize);
      && m.typeAlign == Min(typeSize, e.maxAlign) && m.offset % m.typeAlign == 0
      && 8 * m.offset + m.bitOffset == 8 * e.offset + e.bitOffset
  {
    if e.typeSize != typeSize {
      RoundedDown(e.offset, Min(typeSize, e.maxAlign));
    }
  }

  /** Closing a unit never moves back exactly when the unit's last byte lies ahead. */
  lemma CloseExact(m: Unit)
    requires m.typeSize > 0
    ensures var c := GenericClose(m);
      8 * m.offset + m.bitOffset <= 8 * c.offset + c.bitOffset
      <==> m.bitOffset == 0 || 8 * (m.offset % m.typeSize) + m.bitOffset <= 8 * m.typeSize
  {
  }

  lemma GenericLands(e: Unit, d: Declarator, typeSize: nat)
    requires Sane(Generic(e)) && FieldOk(Generic(e), d, typeSize)
    ensures var p := GenericPush(e, d, typeSize, typeSize); Lands(Generic(e), d, Generic(p.0), p.1)
    ensures d.ext.bits > 0 ==> GenericPush(e, d, typeSize, typeSize).1.size <= typeSize
  {
    RetypeKeepsCursor(e, typeSize);
    var t := GenericRetype(e, typeSize, typeSize);
    MoveAhead(t, d.ext.bits);
    if d.ext.bits == 0 {
      CloseAhead(GenericMove(t, 0));
    } else {
      PlaceAhead(GenericMove(t, d.ext.bits), d);
    }
  }

  lemma CloseAhead(m: Unit)
    requires Sane(Generic(m)) && m.typeSize > 0 && m.typeSize <= m.maxAlign
    ensures Sane(Generic(GenericClose(m))) && Cursor(Generic(m)) <= Cursor(Generic(GenericClose(m)))
  {
    CloseExact(m);
    Bits.ModShift(m.offset, 1, m.typeSize);
  }

  lemma PlaceAhead(m: Unit, d: Declarator)
    requires Sane(Generic(m)) && m.typeSize > 0
    requires d.ext.Bitfield? && 0 < d.ext.bits && m.bitOffset + d.ext.bits <= 8 * m.typeSize
    ensures var p := GenericPlace(m, d);
      && Sane(Generic(p.0)) && InContainer(p.1) && p.1.size <= m.typeSize && p.1.ext.bits == d.ext.bits
      && FieldSpan(m.order, p.1) == Span(Cursor(Generic(m)), Cursor(Generic(p.0)))
  {
  }

  lemma {:induction false} MicrosoftLands(e: Unit, d: Declarator, typeSize: nat)
    requires Sane(Microsoft(e)) && FieldOk(Microsoft(e), d, typeSize)
    ensures var p := MicrosoftPush(e, d, typeSize, typeSize);
      p.Some? && Lands(Microsoft(e), d, Microsoft(p.value.0), p.value.1)
  {
  }

  /** The simple engine's fields lie in its blocks, which move on together. */
  lemma SimpleLands(e: Block, d: Declarator)
    requires Sane(Simple(e)) && d.ext.Bitfield? && d.ext.bits <= 8 * e.blockSize
    ensures var p := SimplePush(e, d); Lands(Simple(e), d, Simple(p.0), p.1)
  {
  }

  /** Every engine gives every field an interval of its own, ahead of all earlier ones. */
  lemma PushLands(e: Engine, d: Declarator, typeSize: nat)
    requires Sane(e) && FieldOk(e, d, typeSize)
    ensures PushFits(e, d, typeSize, typeSize)
    ensures var p := PushField(e, d, typeSize, typeSize);
      p.Some? && Lands(e, d, p.value.0, p.value.1)
  {
    match e
    case Generic(u) => GenericLands(u, d, typeSize);
    case Microsoft(u) => MicrosoftLands(u, d, typeSize);
    case Simple(b) => SimpleLands(b, d);
  }

  // ----- Both byte orders -----

  function WithOrder(e: Engine, o: ByteOrder): Engine {
    match e
    case Generic(u) => Generic(u.(order := o))
    case Microsoft(u) => Microsoft(u.(order := o))
    case Simple(b) => Simple(b.(order := o))
  }

  lemma MoveInOrder(e: Unit, bits: nat, o: ByteOrder)
    requires e.typeAlign > 0 && bits <= 8 * e.typeSize
    ensures GenericMove(e.(order := o), bits) == GenericMove(e, bits).(order := o)
    decreases e.bitOffset
  {
    if bits > 8 * e.typeSize - e.bitOffset {
      MoveInOrder(e.(offset := e.offset + e.typeAlign,
                     bitOffset := if e.bitOffset > 8 * e.typeAlign then e.bitOffset - 8 * e.typeAlign else 0), bits, o);
    }
  }

  /** Two places, numbered from different ends, are the same container and the same bits. */
  ghost predicate SamePlace(o: ByteOrder, d: Declarator, o': ByteOrder, d': Declarator) {
    && d.ext.Bitfield? && d'.ext.Bitfield? && d'.offset == d.offset && d'.size == d.size
    && FieldSpan(o', d') == FieldSpan(o, d)
  }

  lemma {:induction false} GenericSameSpan(e: Unit, d: Declarator, typeSize: nat, o: ByteOrder)
    requires UnitFits(e, typeSize, typeSize) && d.ext.Bitfield? && d.ext.bits <= 8 * typeSize
    ensures var p, q := GenericPush(e, d, typeSize, typeSize), GenericPush(e.(order := o), d, typeSize, typeSize);
      q.0 == p.0.(order := o) && (d.ext.bits > 0 ==> SamePlace(e.order, p.1, o, q.1))
  {
    var m := GenericRetype(e, typeSize, typeSize);
    assert GenericRetype(e.(order := o), typeSize, typeSize) == m.(order := o);
    MoveInOrder(m, d.ext.bits, o);
  }

  lemma {:induction false} MicrosoftSameSpan(e: Unit, d: Declarator, typeSize: nat, o: ByteOrder)
    requires UnitFits(e, typeSize, typeSize) && d.ext.Bitfield? && d.ext.bits <= 8 * typeSize
    ensures var p, q := MicrosoftPush(e, d, typeSize, typeSize), MicrosoftPush(e.(order := o), d, typeSize, typeSize);
      && p.Some? && q.Some? && q.value.0 == p.value.0.(order := o)
      && (d.ext.bits > 0 ==> SamePlace(e.order, p.value.1, o, q.value.1))
  {
    assert MicrosoftRetype(e.(order := o), typeSize, typeSize) == MicrosoftRetype(e, typeSize, typeSize).(order := o);
  }

  lemma {:induction false} SimpleSameSpan(e: Block, d: Declarator, o: ByteOrder)
    requires d.ext.Bitfield?
    ensures var p, q := SimplePush(e, d), SimplePush(e.(order := o), d);
      q.0 == p.0.(order := o) && (d.ext.bits > 0 ==> SamePlace(e.order, p.1, o, q.1))
  {
  }

  /** A field's container and bits do not depend on the byte order: what one order numbers from the least
      significant bit is what the other numbers from the most significant bit. */
  lemma {:induction false} SameSpan(e: Engine, d: Declarator, typeSize: nat, o: ByteOrder)
    requires Sane(e) && FieldOk(e, d, typeSize)
    ensures PushFits(e, d, typeSize, typeSize) && PushFits(WithOrder(e, o), d, typeSize, typeSize)
    ensures var p, q := PushField(e, d, typeSize, typeSize), PushField(WithOrder(e, o), d, typeSize, typeSize);
      && p.Some? && q.Some? && q.value.0 == WithOrder(p.value.0, o)
      && (d.ext.bits > 0 ==> SamePlace(Order(e), p.value.1, o, q.value.1))
  {
    match e
    case Generic(u) => GenericSameSpan(u, d, typeSize, o);
    case Microsoft(u) => MicrosoftSameSpan(u, d, typeSize, o);
    case Simple(b) => SimpleSameSpan(b, d, o);
  }

  /** Finalizing leaves no field's bits behind. */
  lemma FinalizeLands(e: Engine)
    requires Sane(e)
    ensures Cursor(e) <= 8 * Offset(FinalizeEngine(e))
    ensures e.Generic? ==> 8 * Offset(FinalizeEngine(e)) < Cursor(e) + 8
  {
  }

  // ----- Whole runs of bitfields -----

  datatype Field = Field(decl: Declarator, typeSize: nat)

  ghost predicate FieldsOk(e: Engine, fs: seq<Field>) {
    forall f | f in fs :: FieldOk(e, f.decl, f.typeSize)
  }

  ghost function PushAll(e: Engine, fs: seq<Field>): (r: (Engine, seq<Declarator>))
    requires Sane(e) && FieldsOk(e, fs)
    ensures Sane(r.0) && SameKind(e, r.0) && |r.1| == |fs|
    ensures forall i | 0 <= i < |fs| :: r.1[i].ext.Bitfield? && r.1[i].ext.bits == fs[i].decl.ext.bits
  {
    if fs == [] then (e, []) else
      var p, f := PushAll(e, fs[..|fs| - 1]), fs[|fs| - 1];
      PushLands(p.0, f.decl, f.typeSize);
      var q := PushField(p.0, f.decl, f.typeSize, f.typeSize).value;
      (q.0, p.1 + [q.1])
  }

  /** The spans of the fields that take room. */
  ghost function FieldSpans(order: ByteOrder, ds: seq<Declarator>): seq<Span> {
    if ds == [] then []
    else
      var d := ds[|ds| - 1];
      FieldSpans(order, ds[..|ds| - 1]) + if d.ext.Bitfield? && d.ext.bits > 0 then [FieldSpan(order, d)] else []
  }

  /** Over any run, in either byte order, the fields' bits follow one another between the cursors. */
  lemma {:induction false} RunChain(e: Engine, fs: seq<Field>)
    requires Sane(e) && FieldsOk(e, fs)
    ensures var r := PushAll(e, fs);
      Chain(FieldSpans(Order(e), r.1), Cursor(e), Cursor(r.0))
  {
    if fs != [] {
      var p, f := PushAll(e, fs[..|fs| - 1]), fs[|fs| - 1];
      RunChain(e, fs[..|fs| - 1]);
      PushLands(p.0, f.decl, f.typeSize);
      var q := PushField(p.0, f.decl, f.typeSize, f.typeSize).value;
      var xs := FieldSpans(Order(e), p.1);
      assert (p.1 + [q.1])[..|p.1|] == p.1;
      if f.decl.ext.bits == 0 {
        ChainWider(xs, Cursor(e), Cursor(p.0), Cursor(e), Cursor(q.0));
        assert FieldSpans(Order(e), p.1 + [q.1]) == xs;
      } else {
        var x := FieldSpan(Order(e), q.1);
        ChainWider(xs, Cursor(e), Cursor(p.0), Cursor(e), x.lo);
        assert (xs + [x])[..|xs|] == xs;
      }
    }
  }

  // ----- Containers of the Microsoft and the simple engine -----

  /** Where the current unit starts, its size, and whether it holds a field. */
  function UnitBase(e: Engine): nat {
    match e case Generic(u) => u.offset case Microsoft(u) => u.offset case Simple(b) => b.offset + b.pos
  }

  function UnitSize(e: Engine): nat {
    match e case Generic(u) => u.typeSize case Microsoft(u) => u.typeSize case Simple(b) => b.blockSize
  }

  predicate UnitInUse(e: Engine) {
    match e
    case Generic(u) => u.bitOffset > 0
    case Microsoft(u) => u.bitOffset > 0
    case Simple(b) => b.bitsLeft != 8 * b.blockSize
  }

  /** A container that ends before the current unit, or is that unit. */
  ghost predicate Behind(e: Engine, c: Declarator) {
    || c.offset + c.size <= UnitBase(e)
    || (UnitInUse(e) && c.offset == UnitBase(e) && c.size == UnitSize(e))
  }

  /** Two containers are one and the same, or do not overlap. */
  ghost predicate Apart(c: Declarator, c': Declarator) {
    (c.offset == c'.offset && c.size == c'.size) || c.offset + c.size <= c'.offset
  }

  lemma {:induction false} MicrosoftBehind(e: Unit, f: Field, c: Declarator)
    requires Sane(Microsoft(e)) && FieldOk(Microsoft(e), f.decl, f.typeSize) && Behind(Microsoft(e), c)
    ensures UnitFits(e, f.typeSize, f.typeSize)
    ensures var p := MicrosoftPush(e, f.decl, f.typeSize, f.typeSize);
      && p.Some? && Behind(Microsoft(p.value.0), c)
      && (f.decl.ext.bits > 0 ==> Apart(c, p.value.1))
  {
    MicrosoftLands(e, f.decl, f.typeSize);
  }

  lemma {:induction false} PushBehind(e: Engine, f: Field, c: Declarator)
    requires Sane(e) && !e.Generic? && FieldOk(e, f.decl, f.typeSize) && Behind(e, c)
    ensures PushFits(e, f.decl, f.typeSize, f.typeSize)
    ensures var p := PushField(e, f.decl, f.typeSize, f.typeSize);
      && p.Some? && Behind(p.value.0, c)
      && (f.decl.ext.bits > 0 ==> Apart(c, p.value.1))
  {
    if e.Microsoft? {
      MicrosoftBehind(e.unit, f, c);
    }
  }

  lemma PlacedBehind(e: Engine, f: Field)
    requires Sane(e) && !e.Generic? && FieldOk(e, f.decl, f.typeSize) && f.decl.ext.bits > 0
    ensures PushFits(e, f.decl, f.typeSize, f.typeSize)
    ensures var p := PushField(e, f.decl, f.typeSize, f.typeSize);
      p.Some? && Behind(p.value.0, p.value.1)
  {
    PushLands(e, f.decl, f.typeSize);
  }

  predicate TakesRoom(d: Declarator) {
    d.ext.Bitfield? && d.ext.bits > 0
  }

  ghost predicate AllBehind(e: Engine, ds: seq<Declarator>) {
    forall c | c in ds && TakesRoom(c) :: Behind(e, c)
  }

  ghost predicate AllApart(ds: seq<Declarator>) {
    forall i, j | 0 <= i < j < |ds| && TakesRoom(ds[i]) && TakesRoom(ds[j]) :: Apart(ds[i], ds[j])
  }

  lemma ContainersStep(e: Engine, ds: seq<Declarator>, f: Field)
    requires Sane(e) && !e.Generic? && FieldOk(e, f.decl, f.typeSize) && AllBehind(e, ds)
    ensures PushFits(e, f.decl, f.typeSize, f.typeSize)
    ensures var p := PushField(e, f.decl, f.typeSize, f.typeSize);
      && p.Some? && AllBehind(p.value.0, ds + [p.value.1])
      && (TakesRoom(f.decl) ==> forall c | c in ds && TakesRoom(c) :: Apart(c, p.value.1))
  {
    PushLands(e, f.decl, f.typeSize);
    forall c | c in ds && TakesRoom(c)
      ensures var p := PushField(e, f.decl, f.typeSize, f.typeSize).value;
        Behind(p.0, c) && (TakesRoom(f.decl) ==> Apart(c, p.1))
    {
      PushBehind(e, f, c);
    }
    if TakesRoom(f.decl) {
      PlacedBehind(e, f);
    }
  }

  /** With the Microsoft and the simple engine, containers of different units never overlap. */
  lemma {:induction false} RunContainers(e: Engine, fs: seq<Field>)
    requires Sane(e) && FieldsOk(e, fs) && !e.Generic?
    ensures var r := PushAll(e, fs); AllBehind(r.0, r.1) && AllApart(r.1)
  {
    if fs != [] {
      var p, f := PushAll(e, fs[..|fs| - 1]), fs[|fs| - 1];
      RunContainers(e, fs[..|fs| - 1]);
      ContainersStep(p.0, p.1, f);
      PushLands(p.0, f.decl, f.typeSize);
    }
  }

  /** Finalizing returns an offset past every container. */
  lemma FinalizePasses(e: Engine, c: Declarator)
    requires Sane(e) && !e.Generic? && Behind(e, c)
    ensures c.offset + c.size <= Offset(FinalizeEngine(e))
  {
  }

  // ----- Where the generic engine goes wrong -----

  /** Looking for room for no bits does not move the cursor. */
  lemma MoveForNothing(e: Unit)
    requires 0 < e.typeAlign <= e.typeSize
    ensures var m := GenericMove(e, 0); 8 * m.offset + m.bitOffset == 8 * e.offset + e.bitOffset
    decreases e.bitOffset
  {
    if e.bitOffset > 8 * e.typeSize {
      MoveForNothing(e.(offset := e.offset + e.typeAlign, bitOffset := e.bitOffset - 8 * e.typeAlign));
    }
  }

  /** Pushing d moves the cursor back. */
  ghost predicate Retreats(e: Unit, d: Declarator, typeSize: nat)
    requires UnitFits(e, typeSize, typeSize) && d.ext.Bitfield? && d.ext.bits <= 8 * typeSize
  {
    Cursor(Generic(GenericPush(e, d, typeSize, typeSize).0)) < Cursor(Generic(e))
  }

  ghost predicate ZeroWidth(d: Declarator) {
    d.ext.Bitfield? && d.ext.bits == 0
  }

  /** A zero-width field moves the generic engine back exactly when what is used of the unit it finds
      reaches past the next multiple of the type size. */
  lemma ZeroWidthExact(e: Unit, d: Declarator, typeSize: nat)
    requires Sane(Generic(e)) && IntSize(typeSize) && ZeroWidth(d)
    ensures UnitFits(e, typeSize, typeSize)
    ensures var m := GenericMove(GenericRetype(e, typeSize, typeSize), 0);
      Retreats(e, d, typeSize) <==> m.bitOffset > 0 && 8 * (m.offset % typeSize) + m.bitOffset > 8 * typeSize
  {
    RetypeKeepsCursor(e, typeSize);
    var t := GenericRetype(e, typeSize, typeSize);
    MoveForNothing(t);
    CloseExact(GenericMove(t, 0));
  }

  /** The unit of a field as wide as its type that starts where only the limit put it. */
  function Wedged(order: ByteOrder, typeSize: nat, maxAlign: nat): Unit {
    Unit(order, maxAlign, maxAlign, maxAlign, 8 * typeSize, typeSize, maxAlign)
  }

  /** Pushing a zero-width field from a sane state never moves back, if and only if the alignment limit is
      not less than the size of its type. */
  lemma ZeroWidthSafe(typeSize: nat, maxAlign: nat)
    requires IntSize(typeSize) && maxAlign > 0
    ensures (forall e: Unit, d: Declarator | Sane(Generic(e)) && e.maxAlign == maxAlign && ZeroWidth(d) ::
               UnitFits(e, typeSize, typeSize) && !Retreats(e, d, typeSize))
       <==> typeSize <= maxAlign
  {
    if typeSize <= maxAlign {
      forall e: Unit, d: Declarator | Sane(Generic(e)) && e.maxAlign == maxAlign && ZeroWidth(d)
        ensures UnitFits(e, typeSize, typeSize) && !Retreats(e, d, typeSize)
      {
        AlignedUnit(e, typeSize);
        ZeroWidthExact(e, d, typeSize);
      }
    } else {
      var e := Wedged(LittleEndian, typeSize, maxAlign);
      var d := Declarator("", false, Bitfield(0, 0, 0), -1, -1, -1, None);
      Bits.DivModUnique(maxAlign, maxAlign, 1, 0);
      Bits.DivModUnique(maxAlign, typeSize, 0, maxAlign);
      ZeroWidthExact(e, d, typeSize);
      assert Sane(Generic(e)) && ZeroWidth(d) && Retreats(e, d, typeSize);
    }
  }

  /** With such a limit the unit a zero-width field finds starts at a multiple of its size. */
  lemma AlignedUnit(e: Unit, typeSize: nat)
    requires Sane(Generic(e)) && IntSize(typeSize) && typeSize <= e.maxAlign
    ensures var m := GenericMove(GenericRetype(e, typeSize, typeSize), 0);
      m.offset % typeSize == 0 && m.bitOffset <= 8 * typeSize
  {
    RetypeKeepsCursor(e, typeSize);
    MoveAhead(GenericRetype(e, typeSize, typeSize), 0);
  }

  /** A field that fits goes where the engine stands. */
  lemma {:induction false} PushHere(e: Unit, d: Declarator, typeSize: nat)
    requires UnitFits(e, typeSize, typeSize) && d.ext.Bitfield? && d.ext.bits <= 8 * typeSize
    requires var m := GenericRetype(e, typeSize, typeSize); m.bitOffset + d.ext.bits <= 8 * typeSize
    ensures var m := GenericRetype(e, typeSize, typeSize);
      GenericPush(e, d, typeSize, typeSize) == if d.ext.bits == 0 then (GenericClose(m), d) else GenericPlace(m, d)
  {
  }

  /** What pushing a field does that fits where the engine stands. */
  lemma {:induction false} PushValues(e: Unit, m: Unit, d: Declarator, typeSize: nat)
    requires UnitFits(e, typeSize, typeSize) && m == GenericRetype(e, typeSize, typeSize) && m.order == LittleEndian
    requires d.ext.Bitfield? && m.bitOffset + d.ext.bits <= 8 * typeSize
    ensures var p := GenericPush(e, d, typeSize, typeSize);
      && p.0 == (if d.ext.bits == 0 then GenericClose(m) else m.(bitOffset := m.bitOffset + d.ext.bits))
      && (d.ext.bits > 0 ==> FieldSpan(LittleEndian, p.1) == Span(Cursor(Generic(m)), Cursor(Generic(m)) + d.ext.bits))
  {
    PushHere(e, d, typeSize);
  }

  /** A unit that a zero-width field moves back from. */
  ghost predicate MovesBack(m: Unit) {
    && m.order == LittleEndian && IntSize(m.typeSize) && m.typeAlign > 0 && m.maxAlign > 0
    && 0 < m.bitOffset <= 8 * m.typeSize < 8 * (m.offset % m.typeSize) + m.bitOffset
  }

  /** After such a zero-width field the next field is put onto bits that are taken. */
  lemma {:induction false} ZeroWidthOverlap(m: Unit, zero: Declarator, b: Declarator)
    requires MovesBack(m) && zero.ext.Bitfield? && zero.ext.bits == 0
    requires b.ext.Bitfield? && 0 < b.ext.bits <= 8 * m.typeSize
    ensures var p := GenericPush(m, zero, m.typeSize, m.typeSize).0;
      UnitFits(p, m.typeSize, m.typeSize)
      && FieldSpan(LittleEndian, GenericPush(p, b, m.typeSize, m.typeSize).1).lo < Cursor(Generic(m))
  {
    PushValues(m, m, zero, m.typeSize);
    CloseExact(m);
    PushValues(GenericClose(m), GenericClose(m), b, m.typeSize);
  }

  /** Such units do come up for every limit below the type size: `int a:32;` at offset 2 with alignment
      limited to 2, and the like. */
  lemma {:induction false} MovesBackReached(e: Unit, a: Declarator, typeSize: nat)
    requires e.order == LittleEndian && IntSize(typeSize) && 0 < e.maxAlign < typeSize
    requires e.align <= e.offset == e.maxAlign && e.bitOffset == 0 && e.typeSize == 0
    requires a.ext.Bitfield? && a.ext.bits == 8 * typeSize
    ensures Sane(Generic(e)) && GenericPush(e, a, typeSize, typeSize).0 == Wedged(LittleEndian, typeSize, e.maxAlign)
    ensures MovesBack(Wedged(LittleEndian, typeSize, e.maxAlign))
  {
    Bits.DivModUnique(e.maxAlign, e.maxAlign, 1, 0);
    Bits.DivModUnique(e.maxAlign, typeSize, 0, e.maxAlign);
    PushValues(e, GenericRetype(e, typeSize, typeSize), a, typeSize);
  }
}
