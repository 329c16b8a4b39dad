/**
 * What a row's bytes mean.  A row does not say how long its null bitmap is, so every reader tries all
 * (bitmap bytes, present bits) layouts and keeps the one that leaves the least zero padding.
 */
module RowLayout {
  import opened Bytes
  import opened Varint

  datatype FieldType =
    | Int16 | Int32 | Float32 | Float64 | String | DateTime | ObjectId | Geometry | Binary | Raster
    | Uuid1 | Uuid2 | Xml | Int64 | Date | Time | DateTimeWithOffset

  datatype Field = Field(kind: FieldType, nullable: bool)

  /** Bytes a value of the type takes in a row; 0 for the implicit and the length-prefixed types. */
  function FixedWidth(kind: FieldType): nat {
    match kind
    case Int16 => 2
    case Int32 | Float32 => 4
    case Int64 | Float64 | DateTime | Date | Time => 8
    case DateTimeWithOffset => 10
    case Uuid1 | Uuid2 => 16
    case _ => 0
  }

  predicate Prefixed(kind: FieldType) {
    kind in {String, Xml, Binary, Raster, Geometry}
  }

  function Nullables(fields: seq<Field>): (n: nat)
    ensures n <= |fields|
  {
    if fields == [] then 0
    else Nullables(fields[..|fields| - 1]) + if fields[|fields| - 1].nullable then 1 else 0
  }

  // ---- One layout ------------------------------------------------------------------------------------

  /** Where a field's value is: nowhere, implied by the FID, or in the bytes from `start` on. */
  datatype Slot = Null | Implied | At(start: nat, size: nat)

  function Slice(row: seq<byte>, start: nat, size: nat): seq<byte> {
    if start + size <= |row| then row[start..start + size] else []
  }

  datatype Placed = Placed(slot: Slot, end: nat)

  /** The fields a caller wants; unwanted ones are stepped over. */
  datatype Projection = All | Only(indices: seq<nat>)

  predicate Selected(p: Projection, index: nat) {
    p.All? || index in p.indices
  }

  /** Rows are read in place with pointers that never pass the end, or through a reader that adds first. */
  datatype Access = ByPointer | ByReader(projection: Projection)

  predicate Copied(how: Access, index: nat, kind: FieldType) {
    how.ByReader? && kind != Geometry && kind != Raster && Selected(how.projection, index)
  }

  /** Whether a value whose end wraps may be stepped over all the same. */
  predicate MayWrap(how: Access, index: nat, kind: FieldType) {
    how.ByReader? && !Copied(how, index, kind)
  }

  /**
   * A value of a given length behind its prefix.  Position and length are 64-bit: where their sum wraps, a
   * reader that only steps over the value lands somewhere before it; one that copies the value cannot.
   */
  function Behind(how: Access, index: nat, kind: FieldType, room: nat, start: nat, size: uint64): (r: Option<Placed>)
    ensures r.Some? ==> r.value.end <= room && (how == ByPointer ==> start <= r.value.end)
  {
    var end := start + size;
    if end <= room then Some(Placed(At(start, size), end))
    else if end >= TWO_64 && end - TWO_64 <= room && MayWrap(how, index, kind) then
      Some(Placed(At(start, size), end - TWO_64))
    else None
  }

  /** A value that is stepped over ends where the 64-bit sum says, any other where it really ends; it must be in the row. */
  lemma {:induction false} BehindIs(how: Access, index: nat, kind: FieldType, room: nat, start: nat, size: uint64)
    requires start <= room < TWO_64
    ensures var end := if MayWrap(how, index, kind) then (start + size) % TWO_64 else start + size;
      Behind(how, index, kind, room, start, size) == if end <= room then Some(Placed(At(start, size), end)) else None
  {
  }

  /** A value that is not null, read at `at`. */
  function ReadSlot(how: Access, index: nat, kind: FieldType, row: seq<byte>, at: nat): (r: Option<Placed>)
    requires at <= |row|
    ensures r.Some? ==> r.value.end <= |row| && (how == ByPointer ==> at <= r.value.end)
  {
    if kind == ObjectId then Some(Placed(Implied, at))
    else if FixedWidth(kind) != 0 then
      if FixedWidth(kind) > |row| - at then None else Some(Placed(At(at, FixedWidth(kind)), at + FixedWidth(kind)))
    else
      match ReadVaruint(row[at..])
      case Read(size, prefix) => Behind(how, index, kind, |row|, at + prefix, size)
      case _ => None
  }

  /** v >> i & 1 */
  predicate Bit(v: nat, i: nat) {
    if i == 0 then v % 2 == 1 else Bit(v / 2, i - 1)
  }

  /** Whether the k-th nullable field is null: beyond the present bits it always is. */
  predicate NullBit(row: seq<byte>, bytes: nat, present: nat, k: nat)
    requires bytes <= |row|
  {
    k >= present || k / 8 >= bytes || Bit(row[k / 8], k % 8)
  }

  /** The fields placed so far: their slots, the nullable ones among them, and where the next starts. */
  datatype Layout = Layout(slots: seq<Slot>, bits: nat, end: nat)

  function PlaceField(how: Access, index: nat, f: Field, row: seq<byte>, bytes: nat, present: nat, l: Layout): (r: Option<Layout>)
    requires bytes <= |row| && l.end <= |row|
    ensures r.Some? ==> r.value.end <= |row| && |r.value.slots| == |l.slots| + 1 && (how == ByPointer ==> l.end <= r.value.end)
  {
    var bits := if f.nullable then l.bits + 1 else l.bits;
    if f.nullable && NullBit(row, bytes, present, l.bits) then Some(Layout(l.slots + [Null], bits, l.end))
    else
      match ReadSlot(how, index, f.kind, row, l.end)
      case Some(p) => Some(Layout(l.slots + [p.slot], bits, p.end))
      case None => None
  }

  /** The first n fields, one after another behind the bitmap. */
  function Place(how: Access, fields: seq<Field>, row: seq<byte>, bytes: nat, present: nat, n: nat): (r: Option<Layout>)
    requires bytes <= |row| && n <= |fields|
    ensures r.Some? ==> r.value.end <= |row| && |r.value.slots| == n && (how == ByPointer ==> bytes <= r.value.end)
  {
    if n == 0 then Some(Layout([], 0, bytes))
    else
      match Place(how, fields, row, bytes, present, n - 1)
      case Some(l) => PlaceField(how, n - 1, fields[n - 1], row, bytes, present, l)
      case None => None
  }

  predicate ZeroFrom(row: seq<byte>, end: nat) {
    forall i :: end <= i < |row| ==> row[i] == 0
  }

  /** A layout that fits: every field is placed and the rest of the row is zero. */
  function Fit(how: Access, fields: seq<Field>, row: seq<byte>, bytes: nat, present: nat): (r: Option<Layout>)
    requires bytes <= |row|
    ensures r.Some? ==> r.value.end <= |row| && |r.value.slots| == |fields|
  {
    match Place(how, fields, row, bytes, present, |fields|)
    case Some(l) => if ZeroFrom(row, l.end) then Some(l) else None
    case None => None
  }

  // ---- All layouts -----------------------------------------------------------------------------------

  function BitmapBytes(nullables: nat): nat {
    (nullables + 7) / 8
  }

  function MostBits(nullables: nat, bytes: nat): nat {
    if nullables <= 8 * bytes then nullables else 8 * bytes
  }

  datatype Choice = Choice(bytes: nat, present: nat, layout: Layout)

  /** A fitting layout replaces the best so far only if it leaves less padding. */
  function Better(best: Option<Choice>, bytes: nat, present: nat, fit: Option<Layout>): Option<Choice> {
    if fit.Some? && (best.Some? ==> fit.value.end > best.value.layout.end) then Some(Choice(bytes, present, fit.value))
    else best
  }

  function OverBits(how: Access, fields: seq<Field>, row: seq<byte>, bytes: nat, present: int, best: Option<Choice>): Option<Choice>
    requires bytes <= |row|
    decreases present + 1
  {
    if present < 0 then best
    else OverBits(how, fields, row, bytes, present - 1, Better(best, bytes, present, Fit(how, fields, row, bytes, present)))
  }

  function OverBytes(how: Access, fields: seq<Field>, row: seq<byte>, bytes: int, best: Option<Choice>): Option<Choice>
    decreases bytes + 1
  {
    if bytes < 0 then best
    else if bytes > |row| then OverBytes(how, fields, row, bytes - 1, best)
    else
      var best := OverBits(how, fields, row, bytes, MostBits(Nullables(fields), bytes), best);
      OverBytes(how, fields, row, bytes - 1, best)
  }

  /** The layout of a row, without the early exits. */
  function Best(how: Access, fields: seq<Field>, row: seq<byte>): Option<Choice> {
    OverBytes(how, fields, row, BitmapBytes(Nullables(fields)), None)
  }

  // ---- What the search returns -----------------------------------------------------------------------

  predicate Tried(fields: seq<Field>, row: seq<byte>, bytes: nat, present: nat) {
    && bytes <= BitmapBytes(Nullables(fields)) && bytes <= |row|
    && present <= MostBits(Nullables(fields), bytes)
  }

  /** With any number of bitmap bytes that the row has and the nullable fields may need, any number of bits that they hold is tried. */
  lemma TriedIs(fields: seq<Field>, row: seq<byte>, bytes: nat, present: nat)
    ensures Tried(fields, row, bytes, present) <==>
      && bytes <= |row| && (bytes == 0 || 8 * (bytes - 1) < Nullables(fields))
      && present <= Nullables(fields) && present <= 8 * bytes
  {
  }

  /** The order of trying: more bitmap bytes first, then more present bits. */
  predicate Earlier(b: nat, p: nat, bytes: int, present: int) {
    b > bytes || (b == bytes && p > present)
  }

  predicate Before(bytes: nat, present: nat, c: Choice) {
    Earlier(bytes, present, c.bytes, c.present)
  }

  /** c is a fitting layout, no other leaves less padding, and no earlier one leaves as little. */
  ghost predicate FirstLeast(how: Access, fields: seq<Field>, row: seq<byte>, c: Choice) {
    && Tried(fields, row, c.bytes, c.present)
    && Fit(how, fields, row, c.bytes, c.present) == Some(c.layout)
    && forall b: nat, p: nat :: Tried(fields, row, b, p) ==> NotBetter(Fit(how, fields, row, b, p), b, p, c)
  }

  predicate NotBetter(fit: Option<Layout>, bytes: nat, present: nat, c: Choice) {
    fit.Some? ==> fit.value.end <= c.layout.end && (fit.value.end == c.layout.end ==> !Before(bytes, present, c))
  }

  /** The best of the layouts tried before (bytes, present), if any. */
  ghost predicate BestBefore(how: Access, fields: seq<Field>, row: seq<byte>, bytes: int, present: int, best: Option<Choice>) {
    && (best.Some? ==>
          var c := best.value;
          && Tried(fields, row, c.bytes, c.present)
          && Fit(how, fields, row, c.bytes, c.present) == Some(c.layout)
          && Earlier(c.bytes, c.present, bytes, present))
    && (forall b: nat, p: nat :: Tried(fields, row, b, p) && Earlier(b, p, bytes, present) ==>
          if best.None? then Fit(how, fields, row, b, p).None? else NotBetter(Fit(how, fields, row, b, p), b, p, best.value))
  }

  lemma {:induction false} BestBeforeStep(how: Access, fields: seq<Field>, row: seq<byte>, bytes: nat, present: nat, best: Option<Choice>)
    requires Tried(fields, row, bytes, present) && BestBefore(how, fields, row, bytes, present, best)
    ensures BestBefore(how, fields, row, bytes, present - 1, Better(best, bytes, present, Fit(how, fields, row, bytes, present)))
  {
    var fit := Fit(how, fields, row, bytes, present);
    var next := Better(best, bytes, present, fit);
    forall b: nat, p: nat | Tried(fields, row, b, p) && Earlier(b, p, bytes, present - 1)
      ensures if next.None? then Fit(how, fields, row, b, p).None? else NotBetter(Fit(how, fields, row, b, p), b, p, next.value)
    {
      if b == bytes && p == present {
        assert Fit(how, fields, row, b, p) == fit;
      } else {
        assert Earlier(b, p, bytes, present);
      }
    }
  }

  lemma {:induction false} BestBeforeBits(how: Access, fields: seq<Field>, row: seq<byte>, bytes: nat, present: int, best: Option<Choice>)
    requires bytes <= |row| && bytes <= BitmapBytes(Nullables(fields)) && -1 <= present <= MostBits(Nullables(fields), bytes)
    requires BestBefore(how, fields, row, bytes, present, best)
    ensures BestBefore(how, fields, row, bytes, -1, OverBits(how, fields, row, bytes, present, best))
    decreases present + 1
  {
    if present < 0 {
    } else {
      BestBeforeStep(how, fields, row, bytes, present, best);
      BestBeforeBits(how, fields, row, bytes, present - 1, Better(best, bytes, present, Fit(how, fields, row, bytes, present)));
    }
  }

  lemma {:induction false} BestBeforeBytes(how: Access, fields: seq<Field>, row: seq<byte>, bytes: int, best: Option<Choice>)
    requires -1 <= bytes <= BitmapBytes(Nullables(fields))
    requires BestBefore(how, fields, row, bytes, MostBits(Nullables(fields), if bytes < 0 then 0 else bytes), best)
    ensures BestBefore(how, fields, row, -1, 0, OverBytes(how, fields, row, bytes, best))
    decreases bytes + 1
  {
    if bytes < 0 {
    } else if bytes > |row| {
      BestBeforeBytes(how, fields, row, bytes - 1, best);
    } else {
      var most := MostBits(Nullables(fields), bytes);
      BestBeforeBits(how, fields, row, bytes, most, best);
      BestBeforeBytes(how, fields, row, bytes - 1, OverBits(how, fields, row, bytes, most, best));
    }
  }

  /**
   * The search returns the first layout, by descending bitmap bytes and then present bits, among the
   * fitting ones with the least padding, and returns none exactly when none fits.
   */
  lemma {:induction false} BestIsFirstLeast(how: Access, fields: seq<Field>, row: seq<byte>)
    ensures Best(how, fields, row).Some? ==> FirstLeast(how, fields, row, Best(how, fields, row).value)
    ensures Best(how, fields, row).None? <==> forall b: nat, p: nat :: Tried(fields, row, b, p) ==> Fit(how, fields, row, b, p).None?
  {
    var n := Nullables(fields);
    assert BestBefore(how, fields, row, BitmapBytes(n), MostBits(n, BitmapBytes(n)), None);
    BestBeforeBytes(how, fields, row, BitmapBytes(n), None);
  }

  /** Only one layout is first among the least. */
  lemma {:induction false} FirstLeastIsBest(how: Access, fields: seq<Field>, row: seq<byte>, c: Choice)
    requires FirstLeast(how, fields, row, c)
    ensures Best(how, fields, row) == Some(c)
  {
    BestIsFirstLeast(how, fields, row);
    var d := Best(how, fields, row).value;
    assert NotBetter(Fit(how, fields, row, d.bytes, d.present), d.bytes, d.present, c);
    assert NotBetter(Fit(how, fields, row, c.bytes, c.present), c.bytes, c.present, d);
  }

  predicate Exactly(fit: Option<Layout>, row: seq<byte>) {
    fit.Some? && fit.value.end == |row|
  }

  /**
   * A row written in some layout, and without padding, is read back in that layout exactly when no
   * layout tried earlier happens to fill the row as well.
   */
  lemma {:induction false} WrittenIsRead(how: Access, fields: seq<Field>, row: seq<byte>, c: Choice)
    requires Tried(fields, row, c.bytes, c.present)
    requires Fit(how, fields, row, c.bytes, c.present) == Some(c.layout) && c.layout.end == |row|
    ensures Best(how, fields, row) == Some(c) <==>
      forall b: nat, p: nat :: Tried(fields, row, b, p) && Before(b, p, c) ==> !Exactly(Fit(how, fields, row, b, p), row)
  {
    if Best(how, fields, row) == Some(c) {
      BestIsFirstLeast(how, fields, row);
      forall b: nat, p: nat | Tried(fields, row, b, p) && Before(b, p, c)
        ensures !Exactly(Fit(how, fields, row, b, p), row)
      {
        assert NotBetter(Fit(how, fields, row, b, p), b, p, c);
      }
    } else if forall b: nat, p: nat :: Tried(fields, row, b, p) && Before(b, p, c) ==> !Exactly(Fit(how, fields, row, b, p), row) {
      FirstLeastIsBest(how, fields, row, c);
    }
  }

  /** So a row written with its whole bitmap is always read as it was written. */
  lemma {:induction false} WholeBitmapWins(how: Access, fields: seq<Field>, row: seq<byte>, layout: Layout)
    requires BitmapBytes(Nullables(fields)) <= |row|
    requires Fit(how, fields, row, BitmapBytes(Nullables(fields)), Nullables(fields)) == Some(layout) && layout.end == |row|
    ensures Best(how, fields, row) == Some(Choice(BitmapBytes(Nullables(fields)), Nullables(fields), layout))
  {
    WrittenIsRead(how, fields, row, Choice(BitmapBytes(Nullables(fields)), Nullables(fields), layout));
  }

  // ---- The early exits -------------------------------------------------------------------------------

  predicate Exact(row: seq<byte>, best: Option<Choice>) {
    best.Some? && best.value.layout.end == |row|
  }

  lemma {:induction false} ExactStopsBits(how: Access, fields: seq<Field>, row: seq<byte>, bytes: nat, present: int, best: Option<Choice>)
    requires bytes <= |row| && Exact(row, best)
    ensures OverBits(how, fields, row, bytes, present, best) == best
    decreases present + 1
  {
    if present < 0 {
    } else {
      assert Better(best, bytes, present, Fit(how, fields, row, bytes, present)) == best;
      ExactStopsBits(how, fields, row, bytes, present - 1, best);
    }
  }

  lemma {:induction false} ExactStopsBytes(how: Access, fields: seq<Field>, row: seq<byte>, bytes: int, best: Option<Choice>)
    requires Exact(row, best)
    ensures OverBytes(how, fields, row, bytes, best) == best
    decreases bytes + 1
  {
    if bytes < 0 {
    } else if bytes > |row| {
      ExactStopsBytes(how, fields, row, bytes - 1, best);
    } else {
      ExactStopsBits(how, fields, row, bytes, MostBits(Nullables(fields), bytes), best);
      ExactStopsBytes(how, fields, row, bytes - 1, best);
    }
  }

  /** A field that does not fit ends the layout. */
  lemma {:induction false} PlaceStuck(how: Access, fields: seq<Field>, row: seq<byte>, bytes: nat, present: nat, n: nat, m: nat)
    requires bytes <= |row| && n <= m <= |fields|
    requires Place(how, fields, row, bytes, present, n).None?
    ensures Place(how, fields, row, bytes, present, m).None?
    decreases m
  {
    if n == m {
    } else {
      PlaceStuck(how, fields, row, bytes, present, n, m - 1);
    }
  }

  /** The null flags count the nullable fields. */
  lemma {:induction false} PlaceCountsBits(how: Access, fields: seq<Field>, row: seq<byte>, bytes: nat, present: nat, n: nat)
    requires bytes <= |row| && n <= |fields|
    requires Place(how, fields, row, bytes, present, n).Some?
    ensures Place(how, fields, row, bytes, present, n).value.bits == Nullables(fields[..n])
    decreases n
  {
    if n == 0 {
    } else {
      PlaceCountsBits(how, fields, row, bytes, present, n - 1);
      assert fields[..n][..n - 1] == fields[..n - 1];
    }
  }

  // ---- The layouts a search comes to -----------------------------------------------------------------

  /** Nothing tried before (bytes, present) fills the row. */
  ghost predicate NoneExactBefore(how: Access, fields: seq<Field>, row: seq<byte>, bytes: int, present: int) {
    forall b: nat, p: nat :: Tried(fields, row, b, p) && Earlier(b, p, bytes, present) ==> !Exactly(Fit(how, fields, row, b, p), row)
  }

  /** Every search leaves at the first layout that fills the row; it reads those up to it and no other. */
  ghost predicate Visited(how: Access, fields: seq<Field>, row: seq<byte>, bytes: nat, present: nat) {
    Tried(fields, row, bytes, present) && NoneExactBefore(how, fields, row, bytes, present)
  }

  lemma {:induction false} BestIsVisited(how: Access, fields: seq<Field>, row: seq<byte>, c: Choice)
    requires Best(how, fields, row) == Some(c)
    ensures Visited(how, fields, row, c.bytes, c.present)
  {
    BestIsFirstLeast(how, fields, row);
    forall b: nat, p: nat | Tried(fields, row, b, p) && Earlier(b, p, c.bytes, c.present)
      ensures !Exactly(Fit(how, fields, row, b, p), row)
    {
      assert NotBetter(Fit(how, fields, row, b, p), b, p, c);
    }
  }

  /** Without a layout that fills the row every layout is visited; with one, those up to the first such. */
  lemma {:induction false} VisitedUpToBest(how: Access, fields: seq<Field>, row: seq<byte>, bytes: nat, present: nat)
    ensures Visited(how, fields, row, bytes, present) <==>
      Tried(fields, row, bytes, present)
      && (Exact(row, Best(how, fields, row)) ==> !Earlier(Best(how, fields, row).value.bytes, Best(how, fields, row).value.present, bytes, present))
  {
    BestIsFirstLeast(how, fields, row);
    var best := Best(how, fields, row);
    if best.Some? {
      BestIsVisited(how, fields, row, best.value);
      if !Exact(row, best) {
        forall b: nat, p: nat | Tried(fields, row, b, p)
          ensures !Exactly(Fit(how, fields, row, b, p), row)
        {
          assert NotBetter(Fit(how, fields, row, b, p), b, p, best.value);
        }
      }
    }
  }

  /** Two searches choose alike if the layouts that one of them visits fit alike. */
  lemma {:induction false} SameFitsSameBest(one: Access, two: Access, fields: seq<Field>, row: seq<byte>)
    requires forall b: nat, p: nat :: Visited(one, fields, row, b, p) ==> Fit(one, fields, row, b, p) == Fit(two, fields, row, b, p)
    ensures Best(one, fields, row) == Best(two, fields, row)
  {
    BestIsFirstLeast(one, fields, row);
    BestIsFirstLeast(two, fields, row);
    var best := Best(one, fields, row);
    forall b: nat, p: nat | Tried(fields, row, b, p)
      ensures best.None? ==> Fit(two, fields, row, b, p).None?
      ensures best.Some? ==> NotBetter(Fit(two, fields, row, b, p), b, p, best.value)
    {
      VisitedUpToBest(one, fields, row, b, p);
      assert best.Some? ==> NotBetter(Fit(one, fields, row, b, p), b, p, best.value);
    }
    if best.Some? {
      BestIsVisited(one, fields, row, best.value);
      FirstLeastIsBest(two, fields, row, best.value);
    }
  }

  /** They then visit the same layouts. */
  lemma {:induction false} SameBestSameVisited(one: Access, two: Access, fields: seq<Field>, row: seq<byte>, bytes: nat, present: nat)
    requires Best(one, fields, row) == Best(two, fields, row)
    ensures Visited(one, fields, row, bytes, present) <==> Visited(two, fields, row, bytes, present)
  {
    VisitedUpToBest(one, fields, row, bytes, present);
    VisitedUpToBest(two, fields, row, bytes, present);
  }

  // ---- Two ways of reading, one of which takes what the other takes and more -------------------------

  ghost predicate TakesMore(one: Access, two: Access) {
    forall index: nat, kind: FieldType :: MayWrap(two, index, kind) ==> MayWrap(one, index, kind)
  }

  lemma {:induction false} ReadWithin(s: seq<byte>)
    ensures ReadVaruint(s).Read? ==> 0 < ReadVaruint(s).size <= |s|
  {
  }

  /** A value that ends past the row, where the stricter way does not step over such. */
  predicate EndsOutside(two: Access, fields: seq<Field>, row: seq<byte>, slots: seq<Slot>, i: nat)
    requires i < |slots| <= |fields|
  {
    slots[i].At? && slots[i].start + slots[i].size > |row| && !MayWrap(two, i, fields[i].kind)
  }

  ghost predicate StepsBack(two: Access, fields: seq<Field>, row: seq<byte>, slots: seq<Slot>)
    requires |slots| <= |fields|
  {
    exists i :: 0 <= i < |slots| && EndsOutside(two, fields, row, slots, i)
  }

  /** What the one refuses and the other takes ends past the row. */
  predicate OnlyPast(two: Access, index: nat, kind: FieldType, room: nat, more: Option<Placed>, less: Option<Placed>) {
    && (less.Some? ==> more == less)
    && (more.Some? ==>
          (less.None? <==> more.value.slot.At? && more.value.slot.start + more.value.slot.size > room && !MayWrap(two, index, kind)))
  }

  lemma {:induction false} BehindOfStricter(one: Access, two: Access, index: nat, kind: FieldType, room: nat, start: nat, size: uint64)
    requires start <= room < TWO_32 && (MayWrap(two, index, kind) ==> MayWrap(one, index, kind))
    ensures OnlyPast(two, index, kind, room, Behind(one, index, kind, room, start, size), Behind(two, index, kind, room, start, size))
  {
  }

  lemma {:induction false} SlotOfStricter(one: Access, two: Access, index: nat, kind: FieldType, row: seq<byte>, at: nat)
    requires at <= |row| < TWO_32 && TakesMore(one, two)
    ensures OnlyPast(two, index, kind, |row|, ReadSlot(one, index, kind, row, at), ReadSlot(two, index, kind, row, at))
  {
    if kind != ObjectId && FixedWidth(kind) == 0 {
      ReadWithin(row[at..]);
      match ReadVaruint(row[at..])
      case Read(size, prefix) => BehindOfStricter(one, two, index, kind, |row|, at + prefix, size);
      case _ =>
    }
  }

  /** What the stricter way places the other places alike; the rest it reaches only by stepping back. */
  ghost predicate OfStricter(two: Access, fields: seq<Field>, row: seq<byte>, more: Option<Layout>, less: Option<Layout>) {
    && (less.Some? ==> more == less)
    && (more.Some? && |more.value.slots| <= |fields| ==> (less.None? <==> StepsBack(two, fields, row, more.value.slots)))
  }

  lemma {:induction false} StepsBackNext(two: Access, fields: seq<Field>, row: seq<byte>, slots: seq<Slot>, more: seq<Slot>)
    requires |slots| < |more| <= |fields| && more == slots + [more[|slots|]]
    ensures StepsBack(two, fields, row, more) <==> StepsBack(two, fields, row, slots) || EndsOutside(two, fields, row, more, |slots|)
  {
    forall i | 0 <= i < |slots|
      ensures EndsOutside(two, fields, row, more, i) <==> EndsOutside(two, fields, row, slots, i)
    {
    }
  }

  lemma {:induction false} PlacedOneOfStricter(one: Access, two: Access, fields: seq<Field>, row: seq<byte>, bytes: nat, present: nat,
                                               n: nat, more: Layout, less: Option<Layout>)
    requires bytes <= |row| < TWO_32 && TakesMore(one, two) && n < |fields| && |more.slots| == n && more.end <= |row|
    requires OfStricter(two, fields, row, Some(more), less)
    ensures OfStricter(two, fields, row, PlaceField(one, n, fields[n], row, bytes, present, more),
                       if less.Some? then PlaceField(two, n, fields[n], row, bytes, present, more) else None)
  {
    SlotOfStricter(one, two, n, fields[n].kind, row, more.end);
    var after := PlaceField(one, n, fields[n], row, bytes, present, more);
    if after.Some? {
      StepsBackNext(two, fields, row, more.slots, after.value.slots);
    }
  }

  lemma {:induction false} PlacedOfStricter(one: Access, two: Access, fields: seq<Field>, row: seq<byte>, bytes: nat, present: nat, n: nat)
    requires bytes <= |row| < TWO_32 && TakesMore(one, two) && n <= |fields|
    ensures OfStricter(two, fields, row, Place(one, fields, row, bytes, present, n), Place(two, fields, row, bytes, present, n))
    decreases n
  {
    if n == 0 {
    } else {
      PlacedOfStricter(one, two, fields, row, bytes, present, n - 1);
      var more, less := Place(one, fields, row, bytes, present, n - 1), Place(two, fields, row, bytes, present, n - 1);
      if more.Some? {
        PlacedOneOfStricter(one, two, fields, row, bytes, present, n - 1, more.value, less);
      }
    }
  }

  lemma {:induction false} FitOfStricter(one: Access, two: Access, fields: seq<Field>, row: seq<byte>, bytes: nat, present: nat)
    requires bytes <= |row| < TWO_32 && TakesMore(one, two)
    ensures OfStricter(two, fields, row, Fit(one, fields, row, bytes, present), Fit(two, fields, row, bytes, present))
  {
    PlacedOfStricter(one, two, fields, row, bytes, present, |fields|);
  }

  /** A layout that fits only by stepping back, and is better than what the stricter search chooses. */
  ghost predicate Overtakes(one: Access, two: Access, fields: seq<Field>, row: seq<byte>, bytes: nat, present: nat)
    requires bytes <= |row|
  {
    var fit, best := Fit(one, fields, row, bytes, present), Best(two, fields, row);
    && fit.Some? && StepsBack(two, fields, row, fit.value.slots)
    && (best.Some? ==> !NotBetter(fit, bytes, present, best.value))
  }

  ghost predicate Overtaken(one: Access, two: Access, fields: seq<Field>, row: seq<byte>) {
    exists b: nat, p: nat :: Tried(fields, row, b, p) && Overtakes(one, two, fields, row, b, p)
  }

  /** What fits the stricter way, and what does not overtake its choice, is no better than that choice. */
  lemma {:induction false} NotOvertaken(one: Access, two: Access, fields: seq<Field>, row: seq<byte>, bytes: nat, present: nat)
    requires |row| < TWO_32 && TakesMore(one, two) && Tried(fields, row, bytes, present)
    requires !Overtakes(one, two, fields, row, bytes, present)
    ensures var fit, best := Fit(one, fields, row, bytes, present), Best(two, fields, row);
      if best.None? then fit.None? else NotBetter(fit, bytes, present, best.value)
  {
    BestIsFirstLeast(two, fields, row);
    FitOfStricter(one, two, fields, row, bytes, present);
    var best := Best(two, fields, row);
    assert best.Some? ==> NotBetter(Fit(two, fields, row, bytes, present), bytes, present, best.value);
  }

  /** Whatever the stricter search accepts the other accepts, and the two choose alike exactly unless they are overtaken. */
  lemma {:induction false} SameBestIff(one: Access, two: Access, fields: seq<Field>, row: seq<byte>)
    requires |row| < TWO_32 && TakesMore(one, two)
    ensures Best(one, fields, row) == Best(two, fields, row) <==> !Overtaken(one, two, fields, row)
    ensures Best(two, fields, row).Some? ==> Best(one, fields, row).Some?
  {
    BestIsFirstLeast(one, fields, row);
    BestIsFirstLeast(two, fields, row);
    var best := Best(two, fields, row);
    if best.Some? {
      FitOfStricter(one, two, fields, row, best.value.bytes, best.value.present);
    }
    if !Overtaken(one, two, fields, row) {
      forall b: nat, p: nat | Tried(fields, row, b, p)
        ensures if best.None? then Fit(one, fields, row, b, p).None? else NotBetter(Fit(one, fields, row, b, p), b, p, best.value)
      {
        NotOvertaken(one, two, fields, row, b, p);
      }
      if best.Some? {
        FirstLeastIsBest(one, fields, row, best.value);
      }
    } else {
      var b: nat, p: nat :| Tried(fields, row, b, p) && Overtakes(one, two, fields, row, b, p);
    }
  }

  // ---- The values of an accepted row -----------------------------------------------------------------

  function SlotEnd(s: Slot, otherwise: nat): nat {
    if s.At? then s.start + s.size else otherwise
  }

  /** Where the next value comes to lie. */
  lemma {:induction false} NextSlot(index: nat, f: Field, row: seq<byte>, bytes: nat, present: nat, l: Layout, next: Layout)
    requires bytes <= |row| && l.end <= |row| && PlaceField(ByPointer, index, f, row, bytes, present, l) == Some(next)
    ensures l.slots < next.slots && |next.slots| == |l.slots| + 1 && l.end <= next.end
    ensures var slot := next.slots[|l.slots|];
      && (slot.Null? ==> f.nullable) && (slot.Implied? ==> f.kind == ObjectId)
      && (slot.At? ==> l.end <= slot.start && slot.start + slot.size <= next.end)
  {
  }

  /**
   * Values lie in the row behind the bitmap, in field order, without overlap, and only a nullable field
   * is ever null.
   */
  lemma {:induction false} SlotsInOrder(fields: seq<Field>, row: seq<byte>, bytes: nat, present: nat, n: nat, i: nat, j: nat)
    requires bytes <= |row| && i < j <= n <= |fields|
    requires Place(ByPointer, fields, row, bytes, present, n).Some?
    ensures var l := Place(ByPointer, fields, row, bytes, present, n).value;
      && (l.slots[i].Null? ==> fields[i].nullable)
      && (l.slots[i].Implied? ==> fields[i].kind == ObjectId)
      && (l.slots[i].At? ==> bytes <= l.slots[i].start && SlotEnd(l.slots[i], 0) <= l.end)
      && (j < n && l.slots[i].At? && l.slots[j].At? ==> SlotEnd(l.slots[i], 0) <= l.slots[j].start)
    decreases n
  {
    var before, after := Place(ByPointer, fields, row, bytes, present, n - 1).value, Place(ByPointer, fields, row, bytes, present, n).value;
    NextSlot(n - 1, fields[n - 1], row, bytes, present, before, after);
    if i == n - 1 {
    } else {
      SlotsInOrder(fields, row, bytes, present, n - 1, i, if j < n then j else n - 1);
    }
  }
}
