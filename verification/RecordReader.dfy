/**
 * Reading a row into values through a `BinaryReader`: the reader's own layout search, where it differs
 * from the searches by pointer, and the record without its geometry.
 */
module RecordReader {
  import opened Bytes
  import opened Varint
  import opened RowLayout
  import opened Reader = BinaryReader
  import Scanners = RowScanners

  // ---- Reader against pointer ------------------------------------------------------------------------

  /** A read the language leaves undefined: an eleventh prefix byte, or a block of bytes that wraps. */
  predicate UnclearAt(how: Access, index: nat, kind: FieldType, row: seq<byte>, at: nat)
    requires at <= |row|
  {
    && how.ByReader? && Prefixed(kind)
    && match ReadVaruint(row[at..])
       case Read(size, prefix) => kind == Binary && Copied(how, index, kind) && at + prefix + size >= TWO_64
       case RanOut => false
       case TooLong => |row| - at > 10
  }

  /** Prefixes of at most ten bytes whose end, where the value is not a copied text, does not wrap. */
  predicate PlainAt(how: Access, index: nat, kind: FieldType, row: seq<byte>, at: nat)
    requires at <= |row|
  {
    Prefixed(kind) ==>
      match ReadVaruint(row[at..])
      case Read(size, prefix) => at + prefix + size < TWO_64 || (Copied(how, index, kind) && kind != Binary)
      case RanOut => true
      case TooLong => |row| - at <= 10
  }

  /** One value is read alike by pointer and by reader exactly when its prefix is plain. */
  lemma {:induction false} ReaderAgreesAt(how: Access, index: nat, kind: FieldType, row: seq<byte>, at: nat)
    requires how.ByReader? && at <= |row| < TWO_32
    ensures PlainAt(how, index, kind, row, at)
       <==> ReadSlot(how, index, kind, row, at) == ReadSlot(ByPointer, index, kind, row, at) && !UnclearAt(how, index, kind, row, at)
  {
    ReadWithin(row[at..]);
  }

  /** Whether the i-th field's value is read at all, and where. */
  ghost predicate Reaches(how: Access, fields: seq<Field>, row: seq<byte>, bytes: nat, present: nat, i: nat)
    requires bytes <= |row| && i < |fields|
  {
    && Place(how, fields, row, bytes, present, i).Some?
    && !(fields[i].nullable && NullBit(row, bytes, present, Place(how, fields, row, bytes, present, i).value.bits))
  }

  ghost predicate UnclearIn(how: Access, fields: seq<Field>, row: seq<byte>, bytes: nat, present: nat, i: nat)
    requires bytes <= |row| && i < |fields|
  {
    && Reaches(how, fields, row, bytes, present, i)
    && UnclearAt(how, i, fields[i].kind, row, Place(how, fields, row, bytes, present, i).value.end)
  }

  ghost predicate Unclear(how: Access, fields: seq<Field>, row: seq<byte>, bytes: nat, present: nat)
    requires bytes <= |row|
  {
    exists i :: 0 <= i < |fields| && UnclearIn(how, fields, row, bytes, present, i)
  }

  ghost predicate PlainIn(how: Access, fields: seq<Field>, row: seq<byte>, bytes: nat, present: nat, i: nat)
    requires bytes <= |row| && i < |fields|
  {
    Reaches(ByPointer, fields, row, bytes, present, i) ==>
      PlainAt(how, i, fields[i].kind, row, Place(ByPointer, fields, row, bytes, present, i).value.end)
  }

  ghost predicate PlainLayout(how: Access, fields: seq<Field>, row: seq<byte>, bytes: nat, present: nat)
    requires bytes <= |row|
  {
    forall i :: 0 <= i < |fields| ==> PlainIn(how, fields, row, bytes, present, i)
  }

  /** Every prefix met in the layouts the search by pointer visits is plain. */
  ghost predicate PlainRow(how: Access, fields: seq<Field>, row: seq<byte>) {
    forall b: nat, p: nat :: Visited(ByPointer, fields, row, b, p) ==> PlainLayout(how, fields, row, b, p)
  }

  /** Some layout the reader's search visits leads it into an undefined read. */
  ghost predicate UnclearRow(how: Access, fields: seq<Field>, row: seq<byte>) {
    exists b: nat, p: nat :: Visited(how, fields, row, b, p) && Unclear(how, fields, row, b, p)
  }

  lemma {:induction false} ReaderPlacesOneAlike(how: Access, i: nat, f: Field, row: seq<byte>, bytes: nat, present: nat, l: Layout)
    requires how.ByReader? && bytes <= |row| < TWO_32 && l.end <= |row|
    requires !(f.nullable && NullBit(row, bytes, present, l.bits)) ==> PlainAt(how, i, f.kind, row, l.end)
    ensures PlaceField(how, i, f, row, bytes, present, l) == PlaceField(ByPointer, i, f, row, bytes, present, l)
    ensures !(f.nullable && NullBit(row, bytes, present, l.bits)) ==> !UnclearAt(how, i, f.kind, row, l.end)
  {
    ReaderAgreesAt(how, i, f.kind, row, l.end);
  }

  lemma {:induction false} ReaderPlacesNextAlike(how: Access, fields: seq<Field>, row: seq<byte>, bytes: nat, present: nat, n: nat)
    requires how.ByReader? && bytes <= |row| < TWO_32 && n < |fields| && PlainIn(how, fields, row, bytes, present, n)
    requires Place(how, fields, row, bytes, present, n) == Place(ByPointer, fields, row, bytes, present, n)
    ensures Place(how, fields, row, bytes, present, n + 1) == Place(ByPointer, fields, row, bytes, present, n + 1)
  {
    var before := Place(ByPointer, fields, row, bytes, present, n);
    if before.Some? {
      ReaderPlacesOneAlike(how, n, fields[n], row, bytes, present, before.value);
    }
  }

  lemma {:induction false} ReaderPlacesAlike(how: Access, fields: seq<Field>, row: seq<byte>, bytes: nat, present: nat, n: nat)
    requires how.ByReader? && bytes <= |row| < TWO_32 && n <= |fields| && PlainLayout(how, fields, row, bytes, present)
    ensures Place(how, fields, row, bytes, present, n) == Place(ByPointer, fields, row, bytes, present, n)
    decreases n
  {
    if n == 0 {
    } else {
      ReaderPlacesAlike(how, fields, row, bytes, present, n - 1);
      assert PlainIn(how, fields, row, bytes, present, n - 1);
      ReaderPlacesNextAlike(how, fields, row, bytes, present, n - 1);
    }
  }

  lemma {:induction false} PlainIsClear(how: Access, fields: seq<Field>, row: seq<byte>, bytes: nat, present: nat, i: nat)
    requires how.ByReader? && bytes <= |row| < TWO_32 && i < |fields| && PlainLayout(how, fields, row, bytes, present)
    ensures !UnclearIn(how, fields, row, bytes, present, i)
  {
    ReaderPlacesAlike(how, fields, row, bytes, present, i);
    var l := Place(ByPointer, fields, row, bytes, present, i);
    if l.Some? {
      assert PlainIn(how, fields, row, bytes, present, i);
      ReaderPlacesOneAlike(how, i, fields[i], row, bytes, present, l.value);
    }
  }

  /** Reader and pointers place the fields of a layout alike, one after another, and nothing is undefined. */
  ghost predicate WalkAlike(how: Access, fields: seq<Field>, row: seq<byte>, bytes: nat, present: nat)
    requires bytes <= |row|
  {
    && !Unclear(how, fields, row, bytes, present)
    && forall n :: 0 <= n <= |fields| ==> PlacedAlike(how, fields, row, bytes, present, n)
  }

  predicate PlacedAlike(how: Access, fields: seq<Field>, row: seq<byte>, bytes: nat, present: nat, n: nat)
    requires bytes <= |row| && n <= |fields|
  {
    Place(how, fields, row, bytes, present, n) == Place(ByPointer, fields, row, bytes, present, n)
  }

  lemma {:induction false} AlikeIsPlain(how: Access, fields: seq<Field>, row: seq<byte>, bytes: nat, present: nat, i: nat)
    requires how.ByReader? && bytes <= |row| < TWO_32 && i < |fields| && !UnclearIn(how, fields, row, bytes, present, i)
    requires PlacedAlike(how, fields, row, bytes, present, i) && PlacedAlike(how, fields, row, bytes, present, i + 1)
    ensures PlainIn(how, fields, row, bytes, present, i)
  {
    var l := Place(ByPointer, fields, row, bytes, present, i);
    if l.Some? && Reaches(ByPointer, fields, row, bytes, present, i) {
      SamePlacesSameSlot(how, ByPointer, i, fields[i], row, bytes, present, l.value);
      ReaderAgreesAt(how, i, fields[i].kind, row, l.value.end);
    }
  }

  lemma {:induction false} SamePlacesSameSlot(how: Access, other: Access, i: nat, f: Field, row: seq<byte>, bytes: nat, present: nat, l: Layout)
    requires bytes <= |row| && l.end <= |row| && !(f.nullable && NullBit(row, bytes, present, l.bits))
    requires PlaceField(how, i, f, row, bytes, present, l) == PlaceField(other, i, f, row, bytes, present, l)
    ensures ReadSlot(how, i, f.kind, row, l.end) == ReadSlot(other, i, f.kind, row, l.end)
  {
    var one, two := ReadSlot(how, i, f.kind, row, l.end), ReadSlot(other, i, f.kind, row, l.end);
    if one.Some? && two.Some? {
      assert (l.slots + [one.value.slot])[|l.slots|] == (l.slots + [two.value.slot])[|l.slots|];
    }
  }

  /** They walk a layout alike exactly when every prefix the pointers meet on the way is plain. */
  lemma {:induction false} WalkAlikeIff(how: Access, fields: seq<Field>, row: seq<byte>, bytes: nat, present: nat)
    requires how.ByReader? && bytes <= |row| < TWO_32
    ensures WalkAlike(how, fields, row, bytes, present) <==> PlainLayout(how, fields, row, bytes, present)
  {
    if WalkAlike(how, fields, row, bytes, present) {
      forall i | 0 <= i < |fields|
        ensures PlainIn(how, fields, row, bytes, present, i)
      {
        AlikeIsPlain(how, fields, row, bytes, present, i);
      }
    }
    if PlainLayout(how, fields, row, bytes, present) {
      forall n | 0 <= n <= |fields|
        ensures PlacedAlike(how, fields, row, bytes, present, n)
        ensures n < |fields| ==> !UnclearIn(how, fields, row, bytes, present, n)
      {
        ReaderPlacesAlike(how, fields, row, bytes, present, n);
        if n < |fields| {
          PlainIsClear(how, fields, row, bytes, present, n);
        }
      }
    }
  }

  /** Whatever the schema: a row none of whose positions begins an overlong or wrapping prefix is plain. */
  lemma {:induction false} PlainEverywhere(how: Access, fields: seq<Field>, row: seq<byte>)
    requires forall at: nat :: at <= |row| ==> PlainPrefix(row, at)
    ensures PlainRow(how, fields, row)
  {
    forall b: nat, p: nat, i: nat | Tried(fields, row, b, p) && i < |fields|
      ensures PlainIn(how, fields, row, b, p, i)
    {
      var l := Place(ByPointer, fields, row, b, p, i);
      assert l.Some? ==> PlainPrefix(row, l.value.end);
    }
    forall b: nat, p: nat | Visited(ByPointer, fields, row, b, p)
      ensures PlainLayout(how, fields, row, b, p)
    {
    }
  }

  predicate PlainPrefix(row: seq<byte>, at: nat)
    requires at <= |row|
  {
    match ReadVaruint(row[at..])
    case Read(size, prefix) => at + prefix + size < TWO_64
    case RanOut => true
    case TooLong => false
  }

  /**
   * The reader comes to the layout the pointers come to, or like them to none, exactly unless a layout that
   * fits only by stepping back overtakes theirs.  The two then visit the same layouts.
   */
  lemma {:induction false} ReaderAgrees(how: Access, fields: seq<Field>, row: seq<byte>)
    requires how.ByReader? && |row| < TWO_32
    ensures Best(how, fields, row) == Best(ByPointer, fields, row) <==> !Overtaken(how, ByPointer, fields, row)
    ensures Best(ByPointer, fields, row).Some? ==> Best(how, fields, row).Some?
    ensures !Overtaken(how, ByPointer, fields, row) ==>
      (UnclearRow(how, fields, row) <==>
        exists b: nat, p: nat :: Visited(ByPointer, fields, row, b, p) && Unclear(how, fields, row, b, p))
  {
    SameBestIff(how, ByPointer, fields, row);
    if !Overtaken(how, ByPointer, fields, row) {
      forall b: nat, p: nat
        ensures Visited(how, fields, row, b, p) <==> Visited(ByPointer, fields, row, b, p)
      {
        SameBestSameVisited(ByPointer, how, fields, row, b, p);
      }
    }
  }

  /** So it is on plain rows, which are walked alike throughout and without an undefined read. */
  lemma {:induction false} PlainAgrees(how: Access, fields: seq<Field>, row: seq<byte>)
    requires how.ByReader? && |row| < TWO_32 && PlainRow(how, fields, row)
    ensures !Overtaken(how, ByPointer, fields, row) && !UnclearRow(how, fields, row)
    ensures forall b: nat, p: nat :: Visited(ByPointer, fields, row, b, p) ==> WalkAlike(how, fields, row, b, p)
  {
    forall b: nat, p: nat | Visited(ByPointer, fields, row, b, p)
      ensures WalkAlike(how, fields, row, b, p) && Fit(ByPointer, fields, row, b, p) == Fit(how, fields, row, b, p)
    {
      WalkAlikeIff(how, fields, row, b, p);
      assert PlacedAlike(how, fields, row, b, p, |fields|);
    }
    SameFitsSameBest(ByPointer, how, fields, row);
    ReaderAgrees(how, fields, row);
  }

  /** Plain rows are exactly those of which reader and pointers walk every visited layout alike. */
  lemma {:induction false} PlainRowIff(how: Access, fields: seq<Field>, row: seq<byte>)
    requires how.ByReader? && |row| < TWO_32
    ensures PlainRow(how, fields, row) <==>
      forall b: nat, p: nat :: Visited(ByPointer, fields, row, b, p) ==> WalkAlike(how, fields, row, b, p)
  {
    forall b: nat, p: nat | Visited(ByPointer, fields, row, b, p)
      ensures WalkAlike(how, fields, row, b, p) <==> PlainLayout(how, fields, row, b, p)
    {
      WalkAlikeIff(how, fields, row, b, p);
    }
  }

  // ---- Where an undefined read ends a layout -----------------------------------------------------------

  /** An undefined read is the last thing that happens in its layout. */
  lemma {:induction false} UnclearStops(how: Access, fields: seq<Field>, row: seq<byte>, bytes: nat, present: nat, i: nat, n: nat)
    requires bytes <= |row| < TWO_32 && i < n <= |fields| && UnclearIn(how, fields, row, bytes, present, i)
    ensures Place(how, fields, row, bytes, present, n).None?
  {
    assert Place(how, fields, row, bytes, present, i + 1).None?;
    PlaceStuck(how, fields, row, bytes, present, i + 1, n);
  }

  /** A layout of which every field is placed is read without one, and so is one that stops elsewhere. */
  lemma {:induction false} StoppedClear(how: Access, fields: seq<Field>, row: seq<byte>, bytes: nat, present: nat, n: nat)
    requires bytes <= |row| < TWO_32 && n <= |fields| && Place(how, fields, row, bytes, present, n).Some?
    requires n == |fields| || (Place(how, fields, row, bytes, present, n + 1).None? && !UnclearIn(how, fields, row, bytes, present, n))
    ensures !Unclear(how, fields, row, bytes, present)
  {
    forall i | 0 <= i < |fields|
      ensures !UnclearIn(how, fields, row, bytes, present, i)
    {
      if UnclearIn(how, fields, row, bytes, present, i) {
        if i < n {
          UnclearStops(how, fields, row, bytes, present, i, n);
        } else if i > n {
          PlaceStuck(how, fields, row, bytes, present, n + 1, i);
        }
      }
    }
  }

  lemma {:induction false} StoppedAt(how: Access, fields: seq<Field>, row: seq<byte>, bytes: nat, present: nat, n: nat)
    requires bytes <= |row| < TWO_32 && n < |fields| && Place(how, fields, row, bytes, present, n).Some?
    requires Place(how, fields, row, bytes, present, n + 1).None? && !UnclearIn(how, fields, row, bytes, present, n)
    ensures Place(how, fields, row, bytes, present, |fields|).None? && !Unclear(how, fields, row, bytes, present)
  {
    PlaceStuck(how, fields, row, bytes, present, n + 1, |fields|);
    StoppedClear(how, fields, row, bytes, present, n);
  }

  // ---- A row that is not plain -----------------------------------------------------------------------

  /** Ten bytes that are the prefix of a length leading back to the start of the row. */
  function WrappingRow(): seq<byte> {
    VaruintBytes(TWO_64 - 10)
  }

  predicate WrapsToStart(row: seq<byte>) {
    |row| == 10 && ReadVaruint(row) == Read(TWO_64 - 10, 10)
  }

  lemma {:induction false} TenBytePrefix(v: uint64)
    requires v >= TWO_64 / 2
    ensures |VaruintBytes(v)| == 10 && ReadVaruint(VaruintBytes(v)) == Read(v, 10)
  {
    TopBitTakesTen(v);
    VaruintRoundTrip(v, []);
    assert VaruintBytes(v) + [] == VaruintBytes(v);
  }

  lemma {:induction false} WrappingRowWraps()
    ensures WrapsToStart(WrappingRow())
  {
    TenBytePrefix(TWO_64 - 10);
  }

  /** A prefixed value whose end wraps to the start, by pointer and by a reader that steps over it. */
  lemma {:induction false} WrappingSlot(how: Access, kind: FieldType, row: seq<byte>)
    requires WrapsToStart(row) && Prefixed(kind)
    ensures ReadSlot(how, 0, kind, row, 0) ==
      if how.ByReader? && !Copied(how, 0, kind) then Some(Placed(At(10, TWO_64 - 10), 0)) else None
  {
    assert row[0..] == row;
  }

  lemma {:induction false} PlaceOne(how: Access, fields: seq<Field>, row: seq<byte>, n: nat, l: Layout, next: Placed)
    requires n < |fields| && !fields[n].nullable && l.end <= |row|
    requires Place(how, fields, row, 0, 0, n) == Some(l)
    requires ReadSlot(how, n, fields[n].kind, row, l.end) == Some(next)
    ensures Place(how, fields, row, 0, 0, n + 1) == Some(Layout(l.slots + [next.slot], l.bits, next.end))
  {
  }

  /** Behind a wrapped value two plain ones fill the row. */
  lemma {:induction false} WrappedFits(how: Access, fields: seq<Field>, row: seq<byte>)
    requires WrapsToStart(row) && how.ByReader? && |fields| == 3 && Prefixed(fields[0].kind) && !Copied(how, 0, fields[0].kind)
    requires fields[1].kind == Int64 && fields[2].kind == Int16
    requires forall i :: 0 <= i < 3 ==> !fields[i].nullable
    ensures Best(how, fields, row) == Some(Choice(0, 0, Layout([At(10, TWO_64 - 10), At(0, 8), At(8, 2)], 0, 10)))
  {
    var layout := Layout([At(10, TWO_64 - 10), At(0, 8), At(8, 2)], 0, 10);
    NothingNullable(fields);
    WrappingSlot(how, fields[0].kind, row);
    PlaceOne(how, fields, row, 0, Layout([], 0, 0), Placed(At(10, TWO_64 - 10), 0));
    assert [] + [At(10, TWO_64 - 10)] == [At(10, TWO_64 - 10)];
    PlaceOne(how, fields, row, 1, Layout([At(10, TWO_64 - 10)], 0, 0), Placed(At(0, 8), 8));
    assert [At(10, TWO_64 - 10)] + [At(0, 8)] == [At(10, TWO_64 - 10), At(0, 8)];
    PlaceOne(how, fields, row, 2, Layout([At(10, TWO_64 - 10), At(0, 8)], 0, 8), Placed(At(8, 2), 10));
    assert [At(10, TWO_64 - 10), At(0, 8)] + [At(8, 2)] == layout.slots;
    WholeBitmapWins(how, fields, row, layout);
  }

  lemma {:induction false} WrappedFitsNot(how: Access, fields: seq<Field>, row: seq<byte>)
    requires WrapsToStart(row) && |fields| > 0 && Prefixed(fields[0].kind) && (how == ByPointer || Copied(how, 0, fields[0].kind))
    requires forall i :: 0 <= i < |fields| ==> !fields[i].nullable
    ensures Best(how, fields, row).None?
  {
    NothingNullable(fields);
    assert Place(how, fields, row, 0, 0, 1).None? by {
      WrappingSlot(how, fields[0].kind, row);
      assert Place(how, fields, row, 0, 0, 0) == Some(Layout([], 0, 0));
    }
    PlaceStuck(how, fields, row, 0, 0, 1, |fields|);
    BestIsFirstLeast(how, fields, row);
  }

  /** Without nullable fields there is one layout. */
  lemma {:induction false} OnlyLayout(fields: seq<Field>, row: seq<byte>, bytes: nat, present: nat)
    requires forall i :: 0 <= i < |fields| ==> !fields[i].nullable
    requires Tried(fields, row, bytes, present)
    ensures bytes == 0 && present == 0
  {
    NothingNullable(fields);
  }

  lemma {:induction false} OneLayout(how: Access, fields: seq<Field>, row: seq<byte>)
    requires forall i :: 0 <= i < |fields| ==> !fields[i].nullable
    ensures Best(how, fields, row).Some? ==> Fit(how, fields, row, 0, 0).Some?
    ensures !Unclear(how, fields, row, 0, 0) ==> !UnclearRow(how, fields, row)
  {
    if Best(how, fields, row).Some? {
      BestIsFirstLeast(how, fields, row);
      OnlyLayout(fields, row, Best(how, fields, row).value.bytes, Best(how, fields, row).value.present);
    }
    if UnclearRow(how, fields, row) {
      var b: nat, p: nat :| Visited(how, fields, row, b, p) && Unclear(how, fields, row, b, p);
      OnlyLayout(fields, row, b, p);
    }
  }

  /** A text whose end wraps is refused by its copying, which is defined. */
  lemma {:induction false} WrappedTextClear(how: Access, fields: seq<Field>, row: seq<byte>)
    requires WrapsToStart(row) && how.ByReader? && |fields| > 0 && fields[0].kind == String && Copied(how, 0, String)
    requires !fields[0].nullable
    ensures !Unclear(how, fields, row, 0, 0)
  {
    WrappingSlot(how, String, row);
    assert Place(how, fields, row, 0, 0, 0) == Some(Layout([], 0, 0));
    assert Place(how, fields, row, 0, 0, 1).None?;
    assert !UnclearAt(how, 0, String, row, 0) by { assert row[0..] == row; }
    StoppedClear(how, fields, row, 0, 0, 0);
  }

  lemma {:induction false} NothingNullable(fields: seq<Field>)
    requires forall i :: 0 <= i < |fields| ==> !fields[i].nullable
    ensures Nullables(fields) == 0
  {
    if fields == [] {
    } else {
      NothingNullable(fields[..|fields| - 1]);
    }
  }

  // ---- Values ----------------------------------------------------------------------------------------

  /** A scalar is its type and its little-endian bytes. */
  datatype Value = Nothing | Id(id: int) | Scalar(kind: FieldType, bytes: seq<byte>) | Text(text: seq<byte>) | Blob(blob: seq<byte>)

  function SlotValue(kind: FieldType, slot: Slot, row: seq<byte>, fid: uint32): Value {
    match slot
    case Null => Nothing
    case Implied => Id(Scanners.ImpliedId(fid))
    case At(start, size) =>
      match kind
      case Geometry => Text([])
      case Raster => Nothing
      case Binary => Blob(Slice(row, start, size))
      case String | Xml => Text(Slice(row, start, size))
      case _ => Scalar(kind, Slice(row, start, size))
  }

  /** A record leaves the geometry's slot an empty text; a feature leaves what is not wanted empty. */
  datatype Style = WithoutGeometry | Projected(projection: Projection)

  function AccessOf(style: Style): Access {
    ByReader(if style.Projected? then style.projection else All)
  }

  function FieldValue(style: Style, index: nat, kind: FieldType, slot: Slot, row: seq<byte>, fid: uint32): Value {
    match style
    case WithoutGeometry => if kind == Geometry then Text([]) else SlotValue(kind, slot, row, fid)
    case Projected(p) => if Selected(p, index) then SlotValue(kind, slot, row, fid) else Nothing
  }

  datatype Record = Record(fid: uint32, blobLength: nat, nullFlags: seq<byte>, values: seq<Value>, materialized: seq<byte>)

  predicate ValuesSoFar(style: Style, fields: seq<Field>, slots: seq<Slot>, row: seq<byte>, fid: uint32, values: seq<Value>) {
    && |values| == |slots| <= |fields|
    && forall k :: 0 <= k < |slots| ==> values[k] == FieldValue(style, k, fields[k].kind, slots[k], row, fid)
  }

  lemma {:induction false} OneMoreValue(style: Style, fields: seq<Field>, slots: seq<Slot>, slot: Slot, row: seq<byte>, fid: uint32,
                                        values: seq<Value>)
    requires ValuesSoFar(style, fields, slots, row, fid, values) && |slots| < |fields|
    ensures ValuesSoFar(style, fields, slots + [slot], row, fid,
                        values + [FieldValue(style, |slots|, fields[|slots|].kind, slot, row, fid)])
  {
  }

  function Values(style: Style, fields: seq<Field>, slots: seq<Slot>, row: seq<byte>, fid: uint32): (r: seq<Value>)
    requires |slots| == |fields|
    ensures |r| == |fields|
  {
    seq(|fields|, k requires 0 <= k < |fields| => FieldValue(style, k, fields[k].kind, slots[k], row, fid))
  }

  /** The record of a chosen layout. */
  function RecordOf(style: Style, fields: seq<Field>, row: seq<byte>, c: Choice, fid: uint32): Record
    requires |c.layout.slots| == |fields| && c.bytes <= |row|
  {
    Record(fid, |row|, row[..c.bytes], Values(style, fields, c.layout.slots, row, fid), [])
  }

  predicate Recorded(style: Style, fields: seq<Field>, row: seq<byte>, c: Choice, fid: uint32, record: Record) {
    |c.layout.slots| == |fields| && c.bytes <= |row| && record == RecordOf(style, fields, row, c, fid)
  }

  // ---- One value through the reader ------------------------------------------------------------------

  /** A value, a layout given up (refused or thrown out of), or an undefined read. */
  datatype Taken<+T> = Took(value: T) | Dropped | UndefinedRead

  datatype Piece = Piece(start: nat, size: nat, bytes: seq<byte>)

  method TakeContent(reader: BinaryReader, kind: FieldType, copied: bool, size: uint64, ghost how: Access, ghost index: nat)
    returns (r: Taken<Piece>)
    requires reader.Valid() && |reader.data| < TWO_32 && Prefixed(kind) && CanReadAt(|reader.data|, reader.pos, size)
    requires how.ByReader? && copied == Copied(how, index, kind)
    modifies reader
    ensures reader.Valid()
    ensures var behind := Behind(how, index, kind, |reader.data|, old(reader.pos), size);
      match r
      case Took(v) =>
        && v.start == old(reader.pos) && v.size == size
        && behind == Some(Placed(At(v.start, v.size), reader.pos))
        && (copied ==> v.bytes == Slice(reader.data, v.start, v.size))
      case Dropped => behind.None? && !(kind == Binary && old(reader.pos) + size >= TWO_64)
      case UndefinedRead => kind == Binary && copied && old(reader.pos) + size >= TWO_64
  {
    var start := reader.pos;
    if !copied {
      var skipped := reader.Skip(size);
      return Took(Piece(start, size, []));
    }
    var content;
    if kind == Binary {
      content := reader.NextBytes(size);
    } else {
      content := reader.NextText(size);
    }
    match content
    case Got(bytes) => r := Took(Piece(start, size, bytes));
    case Threw => r := Dropped;
    case Undefined => r := UndefinedRead;
  }

  method TakePrefixed(reader: BinaryReader, kind: FieldType, copied: bool, ghost how: Access, ghost index: nat) returns (r: Taken<Piece>)
    requires reader.Valid() && |reader.data| < TWO_32 && Prefixed(kind)
    requires how.ByReader? && copied == Copied(how, index, kind)
    modifies reader
    ensures reader.Valid()
    ensures match r
      case Took(v) =>
        && ReadSlot(how, index, kind, reader.data, old(reader.pos)) == Some(Placed(At(v.start, v.size), reader.pos))
        && (copied ==> v.bytes == Slice(reader.data, v.start, v.size))
      case Dropped =>
        ReadSlot(how, index, kind, reader.data, old(reader.pos)).None? && !UnclearAt(how, index, kind, reader.data, old(reader.pos))
      case UndefinedRead => UnclearAt(how, index, kind, reader.data, old(reader.pos))
  {
    ReadWithin(reader.data[reader.pos..]);
    var length := reader.NextVaruint();
    match length
    case Threw => return Dropped;
    case Undefined => return UndefinedRead;
    case Got(size) =>
      var can := reader.CanRead(size);
      if !can {
        return Dropped;
      }
      r := TakeContent(reader, kind, copied, size, how, index);
  }

  /** The reads a scalar is made of take up exactly its type's width. */
  method TakeScalar(reader: BinaryReader, kind: FieldType) returns (bytes: seq<byte>)
    requires reader.Valid() && kind != ObjectId && !Prefixed(kind)
    requires reader.pos + FixedWidth(kind) <= |reader.data|
    modifies reader
    ensures reader.Valid() && reader.pos == old(reader.pos) + FixedWidth(kind)
    ensures bytes == reader.data[old(reader.pos)..reader.pos]
  {
    var read: Fetched<seq<byte>>;
    match kind {
      case Int16 => read := reader.NextBytes(2);
      case Int32 | Float32 => read := reader.NextBytes(4);
      case Int64 | Float64 | DateTime | Date | Time => read := reader.NextBytes(8);
      case DateTimeWithOffset =>
        var instant := reader.NextBytes(8);
        var offset := reader.NextBytes(2);
        read := Got(instant.value + offset.value);
      case Uuid1 | Uuid2 => read := reader.NextBytes(FixedWidth(kind));
    }
    bytes := read.value;
  }

  /** A scalar is at its place if it fits there. */
  lemma {:induction false} FixedSlot(how: Access, index: nat, kind: FieldType, row: seq<byte>, at: nat, fid: uint32)
    requires at <= |row| && kind != ObjectId && !Prefixed(kind)
    ensures var width := FixedWidth(kind);
      && width != 0
      && (width <= |row| - at ==>
            && ReadSlot(how, index, kind, row, at) == Some(Placed(At(at, width), at + width))
            && SlotValue(kind, At(at, width), row, fid) == Scalar(kind, row[at..at + width]))
      && (width > |row| - at ==> ReadSlot(how, index, kind, row, at).None?)
  {
  }

  method TakeFixed(reader: BinaryReader, kind: FieldType, fid: uint32, ghost how: Access, ghost index: nat) returns (r: Taken<Value>)
    requires reader.Valid() && |reader.data| < TWO_32 && !Prefixed(kind)
    modifies reader
    ensures reader.Valid()
    ensures match r
      case Took(v) =>
        var p := ReadSlot(how, index, kind, reader.data, old(reader.pos));
        p.Some? && reader.pos == p.value.end && v == SlotValue(kind, p.value.slot, reader.data, fid)
      case Dropped => ReadSlot(how, index, kind, reader.data, old(reader.pos)).None?
      case UndefinedRead => false
  {
    if kind == ObjectId {
      return Took(Id(Scanners.ImpliedId(fid)));
    }
    FixedSlot(how, index, kind, reader.data, reader.pos, fid);
    var width := FixedWidth(kind);
    var can := reader.CanRead(width);
    if width == 0 || !can {
      return Dropped;
    }
    var bytes := TakeScalar(reader, kind);
    r := Took(Scalar(kind, bytes));
  }

  /** Stepping over one field, whatever its type. */
  method SkipFieldValue(reader: BinaryReader, kind: FieldType) returns (r: Taken<()>)
    requires reader.Valid() && |reader.data| < TWO_32
    modifies reader
    ensures reader.Valid()
    ensures var slot := ReadSlot(ByReader(Only([])), 0, kind, reader.data, old(reader.pos));
      match r
      case Took(_) => slot.Some? && reader.pos == slot.value.end
      case Dropped => slot.None? && !UnclearAt(ByReader(Only([])), 0, kind, reader.data, old(reader.pos))
      case UndefinedRead => UnclearAt(ByReader(Only([])), 0, kind, reader.data, old(reader.pos))
  {
    var width := FixedWidth(kind);
    if width != 0 {
      var can := reader.CanRead(width);
      if !can {
        return Dropped;
      }
      var skipped := reader.Skip(width);
      return Took(());
    }
    if kind == ObjectId {
      return Took(());
    }
    var piece := TakePrefixed(reader, kind, false, ByReader(Only([])), 0);
    match piece
    case Took(_) => r := Took(());
    case Dropped => r := Dropped;
    case UndefinedRead => r := UndefinedRead;
  }

  /** The flag in the copied bitmap, or a bit that is not present. */
  predicate FlaggedNull(flags: seq<byte>, row: seq<byte>, present: nat, k: nat)
    requires |flags| <= |row| && flags == row[..|flags|] && present <= 8 * |flags|
    ensures FlaggedNull(flags, row, present, k) == NullBit(row, |flags|, present, k)
  {
    k >= present || (k / 8 < |flags| && Bit(flags[k / 8], k % 8))
  }

  // ---- A record without its geometry -----------------------------------------------------------------

  method TakeRecordValue(reader: BinaryReader, kind: FieldType, fid: uint32, ghost index: nat) returns (r: Taken<Value>)
    requires reader.Valid() && |reader.data| < TWO_32
    modifies reader
    ensures reader.Valid()
    ensures match r
      case Took(v) =>
        var p := ReadSlot(ByReader(All), index, kind, reader.data, old(reader.pos));
        p.Some? && reader.pos == p.value.end && v == FieldValue(WithoutGeometry, index, kind, p.value.slot, reader.data, fid)
      case Dropped =>
        && ReadSlot(ByReader(All), index, kind, reader.data, old(reader.pos)).None?
        && !UnclearAt(ByReader(All), index, kind, reader.data, old(reader.pos))
      case UndefinedRead => UnclearAt(ByReader(All), index, kind, reader.data, old(reader.pos))
  {
    if !Prefixed(kind) {
      r := TakeFixed(reader, kind, fid, ByReader(All), index);
      return;
    }
    var piece := TakePrefixed(reader, kind, kind != Geometry && kind != Raster, ByReader(All), index);
    match piece
    case Dropped => r := Dropped;
    case UndefinedRead => r := UndefinedRead;
    case Took(p) =>
      r := Took(match kind
                case Geometry => Text([])
                case Raster => Nothing
                case Binary => Blob(p.bytes)
                case _ => Text(p.bytes));
  }

  method RecordField(reader: BinaryReader, f: Field, flags: seq<byte>, present: nat, bit: nat, fid: uint32, ghost index: nat, ghost l: Layout)
    returns (r: Taken<Value>)
    requires reader.Valid() && |flags| <= |reader.data| < TWO_32 && flags == reader.data[..|flags|] && present <= 8 * |flags|
    requires reader.pos == l.end && bit == l.bits
    modifies reader
    ensures reader.Valid()
    ensures var row, placed := reader.data, PlaceField(ByReader(All), index, f, reader.data, |flags|, present, l);
      match r
      case Took(v) =>
        && placed.Some? && reader.pos == placed.value.end
        && v == FieldValue(WithoutGeometry, index, f.kind, placed.value.slots[|l.slots|], row, fid)
      case Dropped => placed.None? && !UnclearAt(ByReader(All), index, f.kind, row, l.end)
      case UndefinedRead => !(f.nullable && NullBit(row, |flags|, present, l.bits)) && UnclearAt(ByReader(All), index, f.kind, row, l.end)
  {
    if f.nullable && FlaggedNull(flags, reader.data, present, bit) {
      return Took(if f.kind == Geometry then Text([]) else Nothing);
    }
    r := TakeRecordValue(reader, f.kind, fid, index);
  }

  /** The fields before the i-th are placed, and their values taken. */
  predicate TakenSoFar(style: Style, fields: seq<Field>, row: seq<byte>, bytes: nat, present: nat, fid: uint32, i: nat, l: Layout, values: seq<Value>)
    requires bytes <= |row|
  {
    && i <= |fields| && Place(AccessOf(style), fields, row, bytes, present, i) == Some(l)
    && ValuesSoFar(style, fields, l.slots, row, fid, values)
  }

  lemma {:induction false} TakeOneMore(style: Style, fields: seq<Field>, row: seq<byte>, bytes: nat, present: nat, fid: uint32, i: nat,
                                       l: Layout, values: seq<Value>, next: Layout)
    requires bytes <= |row| && i < |fields| && TakenSoFar(style, fields, row, bytes, present, fid, i, l, values)
    requires PlaceField(AccessOf(style), i, fields[i], row, bytes, present, l) == Some(next)
    ensures TakenSoFar(style, fields, row, bytes, present, fid, i + 1, next,
                       values + [FieldValue(style, i, fields[i].kind, next.slots[i], row, fid)])
  {
    OneMoreValue(style, fields, l.slots, next.slots[i], row, fid, values);
  }

  /** All fields behind the bitmap. */
  method RecordFields(reader: BinaryReader, fields: seq<Field>, flags: seq<byte>, present: nat, fid: uint32) returns (r: Taken<seq<Value>>)
    requires reader.Valid() && reader.pos == |flags| <= |reader.data| < TWO_32
    requires flags == reader.data[..|flags|] && present <= 8 * |flags|
    modifies reader
    ensures reader.Valid()
    ensures var l := Place(ByReader(All), fields, reader.data, |flags|, present, |fields|);
      match r
      case Took(values) => l.Some? && reader.pos == l.value.end && ValuesSoFar(WithoutGeometry, fields, l.value.slots, reader.data, fid, values)
      case Dropped => l.None? && !Unclear(ByReader(All), fields, reader.data, |flags|, present)
      case UndefinedRead => Unclear(ByReader(All), fields, reader.data, |flags|, present)
  {
    var values: seq<Value> := [];
    var bit := 0;
    ghost var row, bytes, l := reader.data, |flags|, Layout([], 0, |flags|);
    for i := 0 to |fields|
      invariant reader.Valid() && reader.pos == l.end && bit == l.bits
      invariant TakenSoFar(WithoutGeometry, fields, row, bytes, present, fid, i, l, values)
    {
      ghost var before := l;
      var taken := RecordField(reader, fields[i], flags, present, bit, fid, i, l);
      match taken
      case Dropped =>
        StoppedAt(ByReader(All), fields, row, bytes, present, i);
        return Dropped;
      case UndefinedRead =>
        assert UnclearIn(ByReader(All), fields, row, bytes, present, i);
        return UndefinedRead;
      case Took(value) =>
        l := PlaceField(ByReader(All), i, fields[i], row, bytes, present, before).value;
        TakeOneMore(WithoutGeometry, fields, row, bytes, present, fid, i, before, values, l);
        values := values + [value];
        bit := if fields[i].nullable then bit + 1 else bit;
    }
    r := Took(values);
  }

  datatype Filled = Filled(record: Record, tell: nat)

  /** Given up where a field cannot be placed, and otherwise the record of this layout. */
  predicate RecordTaken(fields: seq<Field>, row: seq<byte>, bytes: nat, present: nat, fid: uint32, r: Taken<Filled>)
    requires bytes <= |row|
  {
    var l := Place(ByReader(All), fields, row, bytes, present, |fields|);
    && (r.Dropped? ==> l.None?)
    && (r.Took? ==>
          && l.Some? && r.value.tell == l.value.end
          && Recorded(WithoutGeometry, fields, row, Choice(bytes, present, l.value), fid, r.value.record))
  }

  method RecordUnder(fields: seq<Field>, row: seq<byte>, bytes: nat, present: nat, fid: uint32) returns (r: Taken<Filled>)
    requires bytes <= |row| < TWO_32 && present <= 8 * bytes
    ensures r.UndefinedRead? <==> Unclear(ByReader(All), fields, row, bytes, present)
    ensures RecordTaken(fields, row, bytes, present, fid, r)
  {
    var reader := new BinaryReader(row);
    var flags: seq<byte> := [];
    if bytes > 0 {
      var read := reader.NextBytes(bytes);
      flags := read.value;
    }
    var taken := RecordFields(reader, fields, flags, present, fid);
    match taken
    case Dropped => r := Dropped;
    case UndefinedRead => r := UndefinedRead;
    case Took(values) =>
      StoppedClear(ByReader(All), fields, row, bytes, present, |fields|);
      r := Took(Filled(Record(fid, |row|, flags, values, []), reader.pos));
  }

  // ---- How far a search has come -----------------------------------------------------------------------

  /** Nothing tried before (bytes, present) fills the row or leads into an undefined read. */
  ghost predicate Passed(how: Access, fields: seq<Field>, row: seq<byte>, bytes: int, present: int) {
    forall b: nat, p: nat :: Tried(fields, row, b, p) && Earlier(b, p, bytes, present) ==>
      !Exactly(Fit(how, fields, row, b, p), row) && !Unclear(how, fields, row, b, p)
  }

  /** The search is about to try (bytes, present), with the best so far not filling the row. */
  ghost predicate OnTrack(how: Access, fields: seq<Field>, row: seq<byte>, bytes: nat, present: int, best: Option<Choice>) {
    && bytes <= BitmapBytes(Nullables(fields)) && bytes <= |row| && -1 <= present <= MostBits(Nullables(fields), bytes)
    && Passed(how, fields, row, bytes, present) && (best.Some? ==> best.value.layout.end < |row|)
    && OverBytes(how, fields, row, bytes - 1, OverBits(how, fields, row, bytes, present, best)) == Best(how, fields, row)
  }

  /** The search is about to try bitmaps of this many bytes. */
  ghost predicate AtBytes(how: Access, fields: seq<Field>, row: seq<byte>, bytes: nat, best: Option<Choice>) {
    && bytes <= BitmapBytes(Nullables(fields))
    && Passed(how, fields, row, bytes, MostBits(Nullables(fields), bytes)) && (best.Some? ==> best.value.layout.end < |row|)
    && OverBytes(how, fields, row, bytes, best) == Best(how, fields, row)
  }

  /** The search has its answer, and was defined throughout. */
  ghost predicate Arrived(how: Access, fields: seq<Field>, row: seq<byte>, best: Option<Choice>) {
    best == Best(how, fields, row) && !UnclearRow(how, fields, row)
  }

  lemma {:induction false} TriedUnclear(how: Access, fields: seq<Field>, row: seq<byte>, bytes: nat, present: nat, best: Option<Choice>)
    requires OnTrack(how, fields, row, bytes, present, best) && Unclear(how, fields, row, bytes, present)
    ensures UnclearRow(how, fields, row)
  {
    assert Visited(how, fields, row, bytes, present);
  }

  /** One more layout, clearly read: it fills the row and ends the search, or the search goes on. */
  lemma {:induction false} TriedOne(how: Access, fields: seq<Field>, row: seq<byte>, bytes: nat, present: nat, best: Option<Choice>)
    requires OnTrack(how, fields, row, bytes, present, best) && !Unclear(how, fields, row, bytes, present)
    ensures var next := Better(best, bytes, present, Fit(how, fields, row, bytes, present));
      if Exact(row, next) then Arrived(how, fields, row, next) else OnTrack(how, fields, row, bytes, present - 1, next)
  {
    var next := Better(best, bytes, present, Fit(how, fields, row, bytes, present));
    forall b: nat, p: nat | Tried(fields, row, b, p) && Earlier(b, p, bytes, present - 1)
      ensures !Unclear(how, fields, row, b, p)
      ensures !(b == bytes && p == present) ==> !Exactly(Fit(how, fields, row, b, p), row)
    {
      assert (b == bytes && p == present) || Earlier(b, p, bytes, present);
    }
    if Exact(row, next) {
      ExactStopsBits(how, fields, row, bytes, present - 1, next);
      ExactStopsBytes(how, fields, row, bytes - 1, next);
      forall b: nat, p: nat | Visited(how, fields, row, b, p)
        ensures !Unclear(how, fields, row, b, p)
      {
        assert Earlier(b, p, bytes, present - 1) || Earlier(bytes, present, b, p);
      }
    }
  }

  /** On to fewer bytes in the bitmap, or none are left to try. */
  lemma {:induction false} TriedBytes(how: Access, fields: seq<Field>, row: seq<byte>, bytes: nat, best: Option<Choice>)
    requires OnTrack(how, fields, row, bytes, -1, best) || (AtBytes(how, fields, row, bytes, best) && bytes > |row|)
    ensures if bytes > 0 then AtBytes(how, fields, row, bytes - 1, best) else Arrived(how, fields, row, best)
  {
    forall b: nat, p: nat | Tried(fields, row, b, p) && b >= bytes
      ensures !Exactly(Fit(how, fields, row, b, p), row) && !Unclear(how, fields, row, b, p)
    {
      assert Earlier(b, p, bytes, -1);
      assert bytes > |row| ==> Earlier(b, p, bytes, MostBits(Nullables(fields), bytes));
    }
  }

  /** The loop's own best so far, with its record. */
  ghost predicate RecordKept(fields: seq<Field>, row: seq<byte>, fid: uint32, best: Option<Choice>, found: bool, padding: nat, record: Record) {
    && Scanners.Follows(row, best, found, padding)
    && (best.Some? ==> Recorded(WithoutGeometry, fields, row, best.value, fid, record))
  }

  /** A layout replaces the best so far exactly if its rest is zero and its padding less. */
  lemma RecordKeptNext(fields: seq<Field>, row: seq<byte>, bytes: nat, present: nat, fid: uint32, best: Option<Choice>, found: bool,
                       padding: nat, record: Record, candidate: Taken<Filled>)
    requires bytes <= |row| && RecordKept(fields, row, fid, best, found, padding, record)
    requires RecordTaken(fields, row, bytes, present, fid, candidate) && !candidate.UndefinedRead?
    ensures var next := Better(best, bytes, present, Fit(ByReader(All), fields, row, bytes, present));
      if candidate.Took? && ZeroFrom(row, candidate.value.tell) && |row| - candidate.value.tell < padding then
        RecordKept(fields, row, fid, next, true, |row| - candidate.value.tell, candidate.value.record)
      else next == best
  {
  }

  method SearchRecord(fields: seq<Field>, row: seq<byte>, fid: uint32) returns (r: Taken<Record>)
    requires |row| < TWO_32
    ensures r.UndefinedRead? <==> UnclearRow(ByReader(All), fields, row)
    ensures var best := Best(ByReader(All), fields, row);
      && (r.Dropped? ==> best.None?)
      && (r.Took? ==> best.Some? && Recorded(WithoutGeometry, fields, row, best.value, fid, r.value))
  {
    var bytes: nat, bestPadding: nat, found := BitmapBytes(Nullables(fields)), |row| + 1, false;
    var record := Record(0, 0, [], [], []);
    ghost var best: Option<Choice> := None;
    while true
      invariant AtBytes(ByReader(All), fields, row, bytes, best)
      invariant RecordKept(fields, row, fid, best, found, bestPadding, record)
      decreases bytes
    {
      if bytes <= |row| {
        var present: int := MostBits(Nullables(fields), bytes);
        while present >= 0
          invariant OnTrack(ByReader(All), fields, row, bytes, present, best)
          invariant RecordKept(fields, row, fid, best, found, bestPadding, record)
        {
          var candidate := RecordUnder(fields, row, bytes, present, fid);
          if candidate.UndefinedRead? {
            TriedUnclear(ByReader(All), fields, row, bytes, present, best);
            return UndefinedRead;
          }
          TriedOne(ByReader(All), fields, row, bytes, present, best);
          RecordKeptNext(fields, row, bytes, present, fid, best, found, bestPadding, record, candidate);
          best := Better(best, bytes, present, Fit(ByReader(All), fields, row, bytes, present));
          present := present - 1;
          if candidate.Took? {
            var padding := |row| - candidate.value.tell;
            var zero := Scanners.AllZero(row, candidate.value.tell);
            if zero && padding < bestPadding {
              bestPadding := padding;
              record := candidate.value.record;
              found := true;
              if padding == 0 {
                break;
              }
            }
          }
        }
      }
      if found && bestPadding == 0 {
        break;
      }
      TriedBytes(ByReader(All), fields, row, bytes, best);
      if bytes == 0 {
        break;
      }
      bytes := bytes - 1;
    }
    r := if found then Took(record) else Dropped;
  }

  // ---- A row without bytes ---------------------------------------------------------------------------

  function Two(n: nat): nat {
    if n == 0 then 1 else 2 * Two(n - 1)
  }

  /** v | 1 << i */
  function SetBit(v: nat, i: nat, width: nat): (r: nat)
    requires v < Two(width) && i < width
    ensures r < Two(width)
  {
    if i == 0 then v / 2 * 2 + 1 else 2 * SetBit(v / 2, i - 1, width - 1) + v % 2
  }

  lemma {:induction false} SetBitSets(v: nat, i: nat, width: nat, j: nat)
    requires v < Two(width) && i < width
    ensures Bit(SetBit(v, i, width), j) <==> j == i || Bit(v, j)
    decreases i, j
  {
    if i == 0 || j == 0 {
    } else {
      SetBitSets(v / 2, i - 1, width - 1, j - 1);
    }
  }

  function Flagged(flags: seq<byte>, k: nat): (r: seq<byte>)
    requires k / 8 < |flags|
    ensures |r| == |flags|
  {
    assert Two(8) == 256;
    flags[k / 8 := SetBit(flags[k / 8], k % 8, 8)]
  }

  predicate FlagAt(flags: seq<byte>, k: nat) {
    k / 8 < |flags| && Bit(flags[k / 8], k % 8)
  }

  lemma {:induction false} FlaggedOnly(flags: seq<byte>, k: nat, j: nat)
    requires k / 8 < |flags|
    ensures FlagAt(Flagged(flags, k), j) <==> j == k || FlagAt(flags, j)
  {
    assert Two(8) == 256;
    if j / 8 == k / 8 {
      SetBitSets(flags[k / 8], k % 8, 8, j % 8);
    }
  }

  datatype Zero = Zero(flags: seq<byte>, values: seq<Value>, bits: nat)

  /** One field of a row without bytes: its number, or null if it may be. */
  function ZeroField(style: Style, f: Field, fid: uint32, z: Zero): Option<Zero>
    requires f.nullable ==> z.bits / 8 < |z.flags|
  {
    var bits := if f.nullable then z.bits + 1 else z.bits;
    var empty := style.WithoutGeometry? && f.kind == Geometry;
    if f.kind == ObjectId then Some(Zero(z.flags, z.values + [Id(Scanners.ImpliedId(fid))], bits))
    else if !f.nullable && !empty then None
    else
      Some(Zero(if f.nullable then Flagged(z.flags, z.bits) else z.flags,
                z.values + [if empty then Text([]) else Nothing], bits))
  }

  lemma {:induction false} NullablesGrow(fields: seq<Field>, n: nat)
    requires n <= |fields|
    ensures Nullables(fields[..n]) <= Nullables(fields)
    ensures n < |fields| ==> Nullables(fields[..n + 1]) == Nullables(fields[..n]) + if fields[n].nullable then 1 else 0
  {
    if n < |fields| {
      assert fields[..n + 1][..n] == fields[..n];
      NullablesGrow(fields[..|fields| - 1], n);
      assert fields[..|fields| - 1][..n] == fields[..n];
    } else {
      assert fields[..n] == fields;
    }
  }

  lemma {:induction false} NextFlagFits(fields: seq<Field>, n: nat)
    requires n < |fields| && fields[n].nullable
    ensures Nullables(fields[..n]) / 8 < BitmapBytes(Nullables(fields))
  {
    NullablesGrow(fields, n);
    NullablesGrow(fields, n + 1);
  }

  function ZeroUpTo(style: Style, fields: seq<Field>, fid: uint32, n: nat): (r: Option<Zero>)
    requires n <= |fields|
    ensures r.Some? ==> |r.value.flags| == BitmapBytes(Nullables(fields)) && |r.value.values| == n && r.value.bits == Nullables(fields[..n])
  {
    if n == 0 then Some(Zero(seq(BitmapBytes(Nullables(fields)), _ => 0), [], 0))
    else
      match ZeroUpTo(style, fields, fid, n - 1)
      case None => None
      case Some(z) =>
        NullablesGrow(fields, n - 1);
        if fields[n - 1].nullable then
          NextFlagFits(fields, n - 1);
          ZeroField(style, fields[n - 1], fid, z)
        else ZeroField(style, fields[n - 1], fid, z)
  }

  lemma {:induction false} ZeroStuck(style: Style, fields: seq<Field>, fid: uint32, n: nat, m: nat)
    requires n <= m <= |fields| && ZeroUpTo(style, fields, fid, n).None?
    ensures ZeroUpTo(style, fields, fid, m).None?
    decreases m
  {
    if n == m {
    } else {
      ZeroStuck(style, fields, fid, n, m - 1);
    }
  }

  ghost predicate FlagMeant(fields: seq<Field>, n: nat, k: nat)
    requires n <= |fields|
  {
    exists i :: 0 <= i < n && FlagOf(fields, i, k)
  }

  /** The k-th flag is that of the i-th field, which is not the FID. */
  predicate FlagOf(fields: seq<Field>, i: nat, k: nat)
    requires i < |fields|
  {
    fields[i].nullable && fields[i].kind != ObjectId && Nullables(fields[..i]) == k
  }

  lemma {:induction false} FlagMeantNext(fields: seq<Field>, n: nat, k: nat)
    requires n < |fields|
    ensures FlagMeant(fields, n + 1, k) <==> FlagMeant(fields, n, k) || FlagOf(fields, n, k)
  {
  }

  lemma {:induction false} NoFlagYet(flags: seq<byte>, k: nat)
    requires forall i :: 0 <= i < |flags| ==> flags[i] == 0
    ensures !FlagAt(flags, k)
  {
    NoBits(k % 8);
  }

  lemma {:induction false} ZeroFlagSays(style: Style, fields: seq<Field>, fid: uint32, n: nat, k: nat, z: Zero, next: Zero)
    requires n < |fields| && z.bits == Nullables(fields[..n]) && (fields[n].nullable ==> z.bits / 8 < |z.flags|)
    requires ZeroField(style, fields[n], fid, z) == Some(next)
    ensures FlagAt(next.flags, k) <==> FlagAt(z.flags, k) || FlagOf(fields, n, k)
  {
    if fields[n].nullable {
      FlaggedOnly(z.flags, z.bits, k);
    }
  }

  /** The bitmap made up for a row without bytes flags exactly the nullable fields that are not the FID. */
  lemma {:induction false} ZeroFlagsSay(style: Style, fields: seq<Field>, fid: uint32, n: nat, k: nat)
    requires n <= |fields| && ZeroUpTo(style, fields, fid, n).Some?
    ensures FlagAt(ZeroUpTo(style, fields, fid, n).value.flags, k) <==> FlagMeant(fields, n, k)
    decreases n
  {
    if n == 0 {
      NoFlagYet(ZeroUpTo(style, fields, fid, 0).value.flags, k);
    } else {
      ZeroFlagsSay(style, fields, fid, n - 1, k);
      var z, next := ZeroUpTo(style, fields, fid, n - 1).value, ZeroUpTo(style, fields, fid, n).value;
      if fields[n - 1].nullable {
        NextFlagFits(fields, n - 1);
      }
      ZeroFlagSays(style, fields, fid, n - 1, k, z, next);
      FlagMeantNext(fields, n - 1, k);
    }
  }

  lemma {:induction false} NoBits(i: nat)
    ensures !Bit(0, i)
  {
    if i == 0 {
    } else {
      NoBits(i - 1);
    }
  }

  function ZeroRecord(style: Style, fields: seq<Field>, fid: uint32): Option<Record> {
    match ZeroUpTo(style, fields, fid, |fields|)
    case Some(z) => Some(Record(fid, 0, z.flags, z.values, []))
    case None => None
  }

  /** One field of a record without bytes: the bitmap after it and its value. */
  method RecordZeroField(f: Field, fid: uint32, flags: seq<byte>, current: nat, ghost values: seq<Value>)
    returns (ok: bool, flagged: seq<byte>, value: Value)
    requires f.nullable ==> current / 8 < |flags|
    ensures var z := ZeroField(WithoutGeometry, f, fid, Zero(flags, values, current));
      if ok then z == Some(Zero(flagged, values + [value], if f.nullable then current + 1 else current)) else z.None?
  {
    ok, flagged, value := true, flags, Nothing;
    if f.kind == ObjectId {
      value := Id(Scanners.ImpliedId(fid));
      return;
    }
    if f.kind == Geometry {
      value := Text([]);
      if f.nullable {
        flagged := Flagged(flags, current);
      }
      return;
    }
    if !f.nullable {
      ok := false;
      return;
    }
    flagged := Flagged(flags, current);
  }

  method MaterializeZeroLengthRecord(fields: seq<Field>, fid: uint32) returns (r: Taken<Record>)
    ensures r == if ZeroRecord(WithoutGeometry, fields, fid).Some? then Took(ZeroRecord(WithoutGeometry, fields, fid).value) else Dropped
  {
    var flags: seq<byte> := seq(BitmapBytes(Nullables(fields)), _ => 0);
    var values: seq<Value>, bit := [], 0;
    for i := 0 to |fields|
      invariant ZeroUpTo(WithoutGeometry, fields, fid, i) == Some(Zero(flags, values, bit))
    {
      if fields[i].nullable {
        NextFlagFits(fields, i);
      }
      var ok, flagged, value := RecordZeroField(fields[i], fid, flags, bit, values);
      if !ok {
        ZeroStuck(WithoutGeometry, fields, fid, i + 1, |fields|);
        return Dropped;
      }
      flags, values := flagged, values + [value];
      bit := if fields[i].nullable then bit + 1 else bit;
    }
    r := Took(Record(fid, 0, flags, values, []));
  }

  // ---- Both ------------------------------------------------------------------------------------------

  /** What reading a row in a style comes to, where it is defined. */
  function RowRead(style: Style, fields: seq<Field>, row: seq<byte>, fid: uint32): Option<Record> {
    if row == [] then ZeroRecord(style, fields, fid)
    else
      match Best(AccessOf(style), fields, row)
      case Some(c) => if c.bytes <= |row| && |c.layout.slots| == |fields| then Some(RecordOf(style, fields, row, c, fid)) else None
      case None => None
  }

  /** What the record read comes to. */
  ghost function RecordOutcome(fields: seq<Field>, row: seq<byte>, fid: uint32): Taken<Record> {
    if row != [] && UnclearRow(ByReader(All), fields, row) then UndefinedRead
    else
      match RowRead(WithoutGeometry, fields, row, fid)
      case Some(record) => Took(record)
      case None => Dropped
  }

  method ParseRecordWithoutGeometry(fields: seq<Field>, row: seq<byte>, fid: uint32) returns (r: Taken<Record>)
    requires |row| < TWO_32
    ensures r == RecordOutcome(fields, row, fid)
  {
    if row == [] {
      r := MaterializeZeroLengthRecord(fields, fid);
    } else {
      r := SearchRecord(fields, row, fid);
    }
  }

  /** The read is refused where the scans refuse the row, and else has the values of the layout they come to. */
  predicate AsScanned(fields: seq<Field>, row: seq<byte>, fid: uint32, r: Taken<Record>) {
    match r
    case Took(record) =>
      Best(ByPointer, fields, row).Some? && Recorded(WithoutGeometry, fields, row, Best(ByPointer, fields, row).value, fid, record)
    case Dropped => Best(ByPointer, fields, row).None?
    case UndefinedRead => false
  }

  /**
   * A row is read as a record in the layout the scans come to, with its values, or refused by both, exactly
   * unless a layout that fits only by stepping back overtakes theirs, or a visited one is left undefined.
   */
  lemma {:induction false} RecordAgreesWithScans(fields: seq<Field>, row: seq<byte>, fid: uint32)
    requires 0 < |row| < TWO_32
    ensures Best(ByReader(All), fields, row) == Best(ByPointer, fields, row) && AsScanned(fields, row, fid, RecordOutcome(fields, row, fid))
       <==> !Overtaken(ByReader(All), ByPointer, fields, row) && !UnclearRow(ByReader(All), fields, row)
  {
    ReaderAgrees(ByReader(All), fields, row);
    BestIsFirstLeast(ByPointer, fields, row);
  }

  lemma {:induction false} WrappedRecord(row: seq<byte>, fields: seq<Field>, slots: seq<Slot>, fid: uint32)
    requires |row| == 10 && fields == [Field(Geometry, false), Field(Int64, false), Field(Int16, false)]
    requires slots == [At(10, TWO_64 - 10), At(0, 8), At(8, 2)]
    ensures RecordOf(WithoutGeometry, fields, row, Choice(0, 0, Layout(slots, 0, 10)), fid)
         == Record(fid, 10, [], [Text([]), Scalar(Int64, row[..8]), Scalar(Int16, row[8..])], [])
  {
    var values := Values(WithoutGeometry, fields, slots, row, fid);
    assert values[0] == Text([]) && values[1] == Scalar(Int64, row[0..8]) && values[2] == Scalar(Int16, row[8..10]);
    assert row[0..8] == row[..8] && row[8..10] == row[8..];
    assert values == [Text([]), Scalar(Int64, row[..8]), Scalar(Int16, row[8..])];
  }

  /** One row, refused by every scan, of which the reader makes a record with nothing undefined on the way. */
  lemma {:induction false} WrappedRowIsRead(row: seq<byte>, fields: seq<Field>, fid: uint32)
    requires WrapsToStart(row) && fields == [Field(Geometry, false), Field(Int64, false), Field(Int16, false)]
    ensures Best(ByPointer, fields, row).None?
    ensures !UnclearRow(ByReader(All), fields, row)
    ensures RowRead(WithoutGeometry, fields, row, fid)
         == Some(Record(fid, 10, [], [Text([]), Scalar(Int64, row[..8]), Scalar(Int16, row[8..])], []))
  {
    WrappedFitsNot(ByPointer, fields, row);
    WrappedFits(ByReader(All), fields, row);
    OneLayout(ByReader(All), fields, row);
    StoppedClear(ByReader(All), fields, row, 0, 0, 3);
    WrappedRecord(row, fields, [At(10, TWO_64 - 10), At(0, 8), At(8, 2)], fid);
  }
}
