/**
 The buffer that structures are packed into, and its bits: what a write changes and what a read
 depends on, one bit at a time, so that bitfields can share bytes with their neighbours.
 */
module PackBuffer {
  import opened Bits
  import opened IntegerCodec
  import opened IntegerMemory

  /** Bit i of a buffer, counted from the least significant bit of each byte in little endian order and
      from the most significant bit in big endian order. There are no bits outside the buffer. */
  ghost predicate BufferBit(o: ByteOrder, b: seq<byte>, i: int) {
    0 <= i < 8 * |b| && Bit(b[i / 8], if o == LittleEndian then i % 8 else 7 - i % 8)
  }

  /** The two buffers have the same bits from lo to hi. */
  ghost predicate SameBits(o: ByteOrder, a: seq<byte>, b: seq<byte>, lo: int, hi: int) {
    forall i: int | lo <= i < hi :: BufferBit(o, a, i) == BufferBit(o, b, i)
  }

  /** b comes from a by changing bits between lo and hi only; it may be longer. */
  ghost predicate ChangesOnly(o: ByteOrder, a: seq<byte>, b: seq<byte>, lo: int, hi: int) {
    |a| <= |b| && forall i: int | !(lo <= i < hi) :: BufferBit(o, a, i) == BufferBit(o, b, i)
  }

  lemma ChangesTrans(o: ByteOrder, a: seq<byte>, b: seq<byte>, c: seq<byte>, lo: int, mid: int, mid': int, hi: int)
    requires ChangesOnly(o, a, b, lo, mid) && ChangesOnly(o, b, c, mid', hi) && lo <= mid <= hi && lo <= mid' <= hi
    ensures ChangesOnly(o, a, c, lo, hi)
  {
  }

  lemma ChangesWider(o: ByteOrder, a: seq<byte>, b: seq<byte>, lo: int, hi: int, lo': int, hi': int)
    requires ChangesOnly(o, a, b, lo, hi) && lo' <= lo && hi <= hi'
    ensures ChangesOnly(o, a, b, lo', hi')
  {
  }

  // ----- Where a container's bits are -----

  /** The place of bit k of a container of `size` bytes at byte pos. */
  function BitPlace(o: ByteOrder, pos: nat, size: nat, k: int): int {
    if o == LittleEndian then 8 * pos + k else 8 * (pos + size) - 1 - k
  }

  lemma {:induction false} LittleBits(b: seq<byte>, pos: nat, size: nat, k: nat)
    requires pos + size <= |b| && k < 8 * size
    ensures ContainerBit(b[pos..pos + size], LittleEndian, k) == BufferBit(LittleEndian, b, 8 * pos + k)
    decreases k
  {
    var c := b[pos..pos + size];
    if k >= 8 {
      assert c[1..] == b[pos + 1..pos + 1 + (size - 1)];
      LittleBits(b, pos + 1, size - 1, k - 8);
    } else {
      DivModUnique(8 * pos + k, 8, pos, k);
    }
  }

  lemma {:induction false} BigBits(b: seq<byte>, pos: nat, size: nat, k: nat)
    requires pos + size <= |b| && k < 8 * size
    ensures ContainerBit(b[pos..pos + size], BigEndian, k) == BufferBit(BigEndian, b, 8 * (pos + size) - 1 - k)
    decreases k
  {
    var c := b[pos..pos + size];
    if k >= 8 {
      assert c[..size - 1] == b[pos..pos + (size - 1)];
      BigBits(b, pos, size - 1, k - 8);
    } else {
      DivModUnique(8 * (pos + size) - 1 - k, 8, pos + size - 1, 7 - k);
    }
  }

  lemma {:induction false} ContainerBits(o: ByteOrder, b: seq<byte>, pos: nat, size: nat, k: nat)
    requires pos + size <= |b| && k < 8 * size
    ensures ContainerBit(b[pos..pos + size], o, k) == BufferBit(o, b, BitPlace(o, pos, size, k))
  {
    if o == LittleEndian {
      LittleBits(b, pos, size, k);
    } else {
      BigBits(b, pos, size, k);
    }
  }

  /** Buffers with the same bits have the same bytes. */
  lemma {:induction false} BytesFromBits(o: ByteOrder, a: seq<byte>, b: seq<byte>, pos: nat, size: nat)
    requires pos + size <= |a| && pos + size <= |b| && SameBits(o, a, b, 8 * pos, 8 * (pos + size))
    ensures a[pos..pos + size] == b[pos..pos + size]
  {
    var x, y := a[pos..pos + size], b[pos..pos + size];
    forall k: nat | k < 8 * size
      ensures ContainerBit(x, o, k) == ContainerBit(y, o, k)
    {
      ContainerBits(o, a, pos, size, k);
      ContainerBits(o, b, pos, size, k);
    }
    SameBytes(x, y, o);
  }

  // ----- Growing and writing -----

  function Zeros(n: nat): (z: seq<byte>)
    ensures |z| == n && forall i | 0 <= i < n :: z[i] == 0
  {
    if n == 0 then [] else [0] + Zeros(n - 1)
  }

  /** `GROW_BUFFER`: make room up to byte n, filling with zeros. */
  function Grown(b: seq<byte>, n: nat): (r: seq<byte>)
    ensures |r| == (if n > |b| then n else |b|) && r[..|b|] == b
  {
    if n > |b| then b + Zeros(n - |b|) else b
  }

  lemma {:induction false} GrownBits(o: ByteOrder, b: seq<byte>, n: nat, i: int)
    ensures BufferBit(o, Grown(b, n), i) == BufferBit(o, b, i)
  {
    var r := Grown(b, n);
    if 0 <= i < 8 * |b| {
      assert r[i / 8] == r[..|b|][i / 8];
    } else if 0 <= i < 8 * |r| {
      assert r[i / 8] == 0;
      BitZero(if o == LittleEndian then i % 8 else 7 - i % 8);
    }
  }

  /** Bytes r put in place at pos. */
  function Patched(b: seq<byte>, pos: nat, r: seq<byte>): (c: seq<byte>)
    requires pos + |r| <= |b|
    ensures |c| == |b| && c[pos..pos + |r|] == r
    ensures forall i | 0 <= i < |b| && !(pos <= i < pos + |r|) :: c[i] == b[i]
  {
    b[..pos] + r + b[pos + |r|..]
  }

  lemma {:induction false} PatchedBits(o: ByteOrder, b: seq<byte>, pos: nat, r: seq<byte>, i: int)
    requires pos + |r| <= |b| && !(8 * pos <= i < 8 * (pos + |r|))
    ensures BufferBit(o, Patched(b, pos, r), i) == BufferBit(o, b, i)
  {
  }

  /** A field of an integer leaf: its container's size, and the bits of it that are used. */
  datatype Leaf = Leaf(size: nat, bits: nat, shift: nat, sign: bool)

  /** The container is an integer's, no wider than the n-bit words that are stored. */
  ghost predicate LeafOk(n: nat, l: Leaf) {
    IntSize(l.size) && 8 * l.size <= n && (l.bits > 0 ==> l.bits + l.shift <= 8 * l.size)
  }

  /** `GROW_BUFFER` and `store_integer`. */
  function WriteLeaf(n: nat, b: seq<byte>, pos: nat, l: Leaf, o: ByteOrder, v: nat): (r: seq<byte>)
    requires LeafOk(n, l)
    ensures |r| >= |b| && |r| >= pos + l.size
  {
    var g := Grown(b, pos + l.size);
    Patched(g, pos, StoreBytes(n, g[pos..pos + l.size], l.bits, l.shift, o, v))
  }

  /** `fetch_integer`. */
  function ReadLeaf(n: nat, b: seq<byte>, pos: nat, l: Leaf, o: ByteOrder): (r: nat)
    requires LeafOk(n, l) && pos + l.size <= |b|
    ensures r < Pow2(n)
  {
    FetchPattern(n, b[pos..pos + l.size], l.sign, l.bits, l.shift, o)
  }

  /** Where the bits of a leaf lie; a bitfield is in the byte order of the layout. */
  function LeafLo(o: ByteOrder, pos: nat, l: Leaf): int {
    if l.bits == 0 then 8 * pos
    else if o == LittleEndian then 8 * pos + l.shift else 8 * (pos + l.size) - l.shift - l.bits
  }

  function LeafHi(o: ByteOrder, pos: nat, l: Leaf): int {
    LeafLo(o, pos, l) + if l.bits == 0 then 8 * l.size else l.bits
  }

  /** Writing a leaf changes no other bits. */
  lemma {:induction false} WriteChanges(n: nat, lo: ByteOrder, b: seq<byte>, pos: nat, l: Leaf, o: ByteOrder, v: nat)
    requires LeafOk(n, l) && (l.bits > 0 ==> o == lo)
    ensures ChangesOnly(lo, b, WriteLeaf(n, b, pos, l, o, v), LeafLo(lo, pos, l), LeafHi(lo, pos, l))
  {
    var g := Grown(b, pos + l.size);
    var c := g[pos..pos + l.size];
    if l.bits > 0 {
      StoreKeepsOthers(n, c, l, o, v);
    }
    PatchChanges(lo, b, pos, l, StoreBytes(n, c, l.bits, l.shift, o, v));
  }

  lemma {:induction false} PatchChanges(o: ByteOrder, b: seq<byte>, pos: nat, l: Leaf, r: seq<byte>)
    requires |r| == l.size
    requires l.bits > 0 ==> KeepsOthers(o, Grown(b, pos + l.size)[pos..pos + l.size], r, l)
    ensures ChangesOnly(o, b, Patched(Grown(b, pos + l.size), pos, r), LeafLo(o, pos, l), LeafHi(o, pos, l))
  {
    var g := Grown(b, pos + l.size);
    forall i: int | !(LeafLo(o, pos, l) <= i < LeafHi(o, pos, l))
      ensures BufferBit(o, b, i) == BufferBit(o, Patched(g, pos, r), i)
    {
      GrownBits(o, b, pos + l.size, i);
      if 8 * pos <= i < 8 * (pos + l.size) {
        BesideField(o, g, pos, l, r, i);
      } else {
        PatchedBits(o, g, pos, r, i);
      }
    }
  }

  /** Bytes that keep all but a field's bits, put in place, keep all other bits of the buffer. */
  lemma {:induction false} BesideField(o: ByteOrder, g: seq<byte>, pos: nat, l: Leaf, r: seq<byte>, i: int)
    requires l.bits > 0 && |r| == l.size && pos + l.size <= |g| && 8 * pos <= i < 8 * (pos + l.size)
    requires !(LeafLo(o, pos, l) <= i < LeafHi(o, pos, l))
    requires KeepsOthers(o, g[pos..pos + l.size], r, l)
    ensures BufferBit(o, Patched(g, pos, r), i) == BufferBit(o, g, i)
  {
    var k: nat := if o == LittleEndian then i - 8 * pos else 8 * (pos + l.size) - 1 - i;
    ContainerBits(o, g, pos, l.size, k);
    PatchedInside(o, g, pos, r, k);
    assert ContainerBit(g[pos..pos + l.size], o, k) == ContainerBit(r, o, k);
  }

  ghost predicate KeepsOthers(o: ByteOrder, c: seq<byte>, r: seq<byte>, l: Leaf) {
    forall k: nat | k < 8 * l.size && !(l.shift <= k < l.shift + l.bits) ::
      ContainerBit(c, o, k) == ContainerBit(r, o, k)
  }

  lemma {:induction false} StoreKeepsOthers(n: nat, c: seq<byte>, l: Leaf, o: ByteOrder, v: nat)
    requires LeafOk(n, l) && |c| == l.size && l.bits > 0
    ensures KeepsOthers(o, c, StoreBytes(n, c, l.bits, l.shift, o, v), l)
  {
    forall k: nat | k < 8 * l.size && !(l.shift <= k < l.shift + l.bits)
      ensures ContainerBit(c, o, k) == ContainerBit(StoreBytes(n, c, l.bits, l.shift, o, v), o, k)
    {
      StoreBits(n, c, l.bits, l.shift, o, v, k);
    }
  }

  lemma {:induction false} PatchedInside(o: ByteOrder, g: seq<byte>, pos: nat, r: seq<byte>, k: nat)
    requires pos + |r| <= |g| && k < 8 * |r|
    ensures BufferBit(o, Patched(g, pos, r), BitPlace(o, pos, |r|, k)) == ContainerBit(r, o, k)
  {
    ContainerBits(o, Patched(g, pos, r), pos, |r|, k);
  }

  ghost predicate SameField(o: ByteOrder, x: seq<byte>, y: seq<byte>, l: Leaf) {
    forall k: nat | l.shift <= k < l.shift + l.bits :: ContainerBit(x, o, k) == ContainerBit(y, o, k)
  }

  /** Bit i of a fetched field is one bit of its container; bits above the field repeat the sign. */
  lemma {:induction false} FetchedFieldBit(n: nat, c: seq<byte>, l: Leaf, o: ByteOrder, i: nat, k: nat)
    requires LeafOk(n, l) && l.bits > 0 && |c| == l.size && i < n
    requires k == l.shift + if i < l.bits then i else l.bits - 1
    ensures Bit(FetchPattern(n, c, l.sign, l.bits, l.shift, o), i) == ((i < l.bits || l.sign) && ContainerBit(c, o, k))
  {
    FetchBits(n, c, l.sign, l.bits, l.shift, o, i);
  }

  lemma {:induction false} FetchSame(n: nat, x: seq<byte>, y: seq<byte>, l: Leaf, o: ByteOrder)
    requires LeafOk(n, l) && l.bits > 0 && |x| == |y| == l.size && SameField(o, x, y, l)
    ensures FetchPattern(n, x, l.sign, l.bits, l.shift, o) == FetchPattern(n, y, l.sign, l.bits, l.shift, o)
  {
    var v, w := FetchPattern(n, x, l.sign, l.bits, l.shift, o), FetchPattern(n, y, l.sign, l.bits, l.shift, o);
    forall i: nat | i < n
      ensures Bit(v, i) == Bit(w, i)
    {
      var k: nat := l.shift + if i < l.bits then i else l.bits - 1;
      assert ContainerBit(x, o, k) == ContainerBit(y, o, k);
      FetchedFieldBit(n, x, l, o, i, k);
      FetchedFieldBit(n, y, l, o, i, k);
    }
    SamePattern(n, v, w);
  }

  lemma {:induction false} FieldFromBits(o: ByteOrder, a: seq<byte>, b: seq<byte>, pos: nat, l: Leaf)
    requires l.bits > 0 && l.bits + l.shift <= 8 * l.size && pos + l.size <= |a| && pos + l.size <= |b|
    requires SameBits(o, a, b, LeafLo(o, pos, l), LeafHi(o, pos, l))
    ensures SameField(o, a[pos..pos + l.size], b[pos..pos + l.size], l)
  {
    var x, y := a[pos..pos + l.size], b[pos..pos + l.size];
    forall k: nat | l.shift <= k < l.shift + l.bits
      ensures ContainerBit(x, o, k) == ContainerBit(y, o, k)
    {
      FieldBitSame(o, a, b, pos, l, k);
    }
  }

  lemma {:induction false} FieldBitSame(o: ByteOrder, a: seq<byte>, b: seq<byte>, pos: nat, l: Leaf, k: nat)
    requires l.bits > 0 && l.bits + l.shift <= 8 * l.size && pos + l.size <= |a| && pos + l.size <= |b|
    requires SameBits(o, a, b, LeafLo(o, pos, l), LeafHi(o, pos, l)) && l.shift <= k < l.shift + l.bits
    ensures ContainerBit(a[pos..pos + l.size], o, k) == ContainerBit(b[pos..pos + l.size], o, k)
  {
    ContainerBits(o, a, pos, l.size, k);
    ContainerBits(o, b, pos, l.size, k);
    assert LeafLo(o, pos, l) <= BitPlace(o, pos, l.size, k) < LeafHi(o, pos, l);
  }

  /** Reading a leaf depends on its own bits only. */
  lemma {:induction false} ReadSame(n: nat, lo: ByteOrder, a: seq<byte>, b: seq<byte>, pos: nat, l: Leaf, o: ByteOrder)
    requires LeafOk(n, l) && (l.bits > 0 ==> o == lo) && pos + l.size <= |a| && pos + l.size <= |b|
    requires SameBits(lo, a, b, LeafLo(lo, pos, l), LeafHi(lo, pos, l))
    ensures ReadLeaf(n, a, pos, l, o) == ReadLeaf(n, b, pos, l, o)
  {
    if l.bits == 0 {
      BytesFromBits(lo, a, b, pos, l.size);
    } else {
      FieldFromBits(o, a, b, pos, l);
      FetchSame(n, a[pos..pos + l.size], b[pos..pos + l.size], l, o);
    }
  }

  // ----- Values -----

  /** The integer that a pattern stands for. */
  function ValueOf(n: nat, v: nat, sign: bool): int
    requires n > 0
  {
    if sign then SignedOf(n, v) else v
  }

  /** The values a leaf can hold. */
  ghost predicate LeafRange(n: nat, l: Leaf, x: int)
    requires LeafOk(n, l)
  {
    var w := Width(l.size, l.bits);
    if l.sign then -1 * Pow2(w - 1) <= x < Pow2(w - 1) else 0 <= x < Pow2(w)
  }

  /** A value in range is read back as it was written. */
  lemma {:induction false} ReadWritten(n: nat, b: seq<byte>, pos: nat, l: Leaf, o: ByteOrder, x: int)
    requires LeafOk(n, l) && LeafRange(n, l, x)
    ensures ValueOf(n, ReadLeaf(n, WriteLeaf(n, b, pos, l, o, PatternOf(n, x)), pos, l, o), l.sign) == x
  {
    StoredValue(n, Grown(b, pos + l.size)[pos..pos + l.size], l, o, x);
    Written(n, b, pos, l, o, PatternOf(n, x));
  }

  /** What a write leaves in the container. */
  lemma {:induction false} Written(n: nat, b: seq<byte>, pos: nat, l: Leaf, o: ByteOrder, v: nat)
    requires LeafOk(n, l)
    ensures WriteLeaf(n, b, pos, l, o, v)[pos..pos + l.size]
         == StoreBytes(n, Grown(b, pos + l.size)[pos..pos + l.size], l.bits, l.shift, o, v)
  {
    PatchedSlice(Grown(b, pos + l.size), pos,
                 StoreBytes(n, Grown(b, pos + l.size)[pos..pos + l.size], l.bits, l.shift, o, v), l.size);
  }

  lemma {:induction false} PatchedSlice(b: seq<byte>, pos: nat, r: seq<byte>, size: nat)
    requires pos + size <= |b| && |r| == size
    ensures Patched(b, pos, r)[pos..pos + size] == r
  {
  }

  lemma {:induction false} StoredValue(n: nat, c: seq<byte>, l: Leaf, o: ByteOrder, x: int)
    requires LeafOk(n, l) && LeafRange(n, l, x) && |c| == l.size
    ensures var stored := StoreBytes(n, c, l.bits, l.shift, o, PatternOf(n, x));
      ValueOf(n, FetchPattern(n, stored, l.sign, l.bits, l.shift, o), l.sign) == x
  {
    FetchAfterStore(n, c, l.sign, l.bits, l.shift, o, PatternOf(n, x));
    InRange(n, Width(l.size, l.bits), l.sign, x);
  }
}
