/**
 * Rows as they are written: one bit for every nullable field, set where the value is absent, then the
 * values one after another.  What is written does not look at how rows are read; every search of the
 * program gets back from such a row exactly the nulls and the bytes that went in.
 */
module RowWriter {
  import opened Bytes
  import opened Varint
  import opened RowLayout
  import opened RecordReader
  import opened FeatureReader
  import Scanners = RowScanners
  import Scan = GeometryScan
  import Fields = FieldScan

  // ---- Writing ---------------------------------------------------------------------------------------

  /** A field's value: absent, or the bytes of its content. */
  datatype Cell = Absent | Present(content: seq<byte>)

  /** Content behind its own length. */
  predicate Lengthy(kind: FieldType) {
    kind == String || kind == Xml || kind == Binary || kind == Raster || kind == Geometry
  }

  /** A value that a field can hold: numbers, dates and UUIDs have their size, and a FID is not written. */
  predicate Suits(f: Field, c: Cell) {
    match c
    case Absent => f.nullable
    case Present(content) =>
      match f.kind
      case ObjectId => content == []
      case Int16 => |content| == 2
      case Int32 | Float32 => |content| == 4
      case Int64 | Float64 | DateTime | Date | Time => |content| == 8
      case DateTimeWithOffset => |content| == 10
      case Uuid1 | Uuid2 => |content| == 16
      case String | Xml | Binary | Raster | Geometry => |content| < TWO_64
  }

  function CellBytes(kind: FieldType, c: Cell): seq<byte> {
    match c
    case Absent => []
    case Present(content) => if Lengthy(kind) then VaruintBytes(|content|) + content else content
  }

  /** The values of the first n fields. */
  function Body(fields: seq<Field>, cells: seq<Cell>, n: nat): seq<byte>
    requires n <= |fields| == |cells|
  {
    if n == 0 then [] else Body(fields, cells, n - 1) + CellBytes(fields[n - 1].kind, cells[n - 1])
  }

  /** Which of the nullable ones among the first n fields are absent, in their order. */
  function Absences(fields: seq<Field>, cells: seq<Cell>, n: nat): seq<bool>
    requires n <= |fields| == |cells|
  {
    if n == 0 then []
    else Absences(fields, cells, n - 1) + if fields[n - 1].nullable then [cells[n - 1].Absent?] else []
  }

  /** Bits as a number, the first one lowest. */
  function PackBits(bits: seq<bool>): (v: nat)
    ensures v < Two(|bits|)
  {
    if bits == [] then 0 else (if bits[0] then 1 else 0) + 2 * PackBits(bits[1..])
  }

  /** Eight bits a byte, as many bytes as it takes. */
  function Pack(bits: seq<bool>): seq<byte> {
    assert Two(8) == 256;
    if bits == [] then []
    else if |bits| <= 8 then
      TwoGrows(|bits|, 8);
      [PackBits(bits)]
    else [PackBits(bits[..8])] + Pack(bits[8..])
  }

  lemma {:induction false} TwoGrows(m: nat, n: nat)
    requires m <= n
    ensures Two(m) <= Two(n)
    decreases n
  {
    if m == n {
    } else {
      TwoGrows(m, n - 1);
    }
  }

  /** A row with a bit for each of the first `present` nullable fields. */
  function Row(fields: seq<Field>, cells: seq<Cell>, present: nat): seq<byte>
    requires |fields| == |cells| && present <= |Absences(fields, cells, |fields|)|
  {
    Pack(Absences(fields, cells, |fields|)[..present]) + Body(fields, cells, |fields|)
  }

  /** Every field can hold its value, and where bits are left out their fields are absent. */
  ghost predicate Writable(fields: seq<Field>, cells: seq<Cell>, present: nat) {
    && |fields| == |cells| && (forall i :: 0 <= i < |fields| ==> Suits(fields[i], cells[i]))
    && var absences := Absences(fields, cells, |fields|);
      present <= |absences| && forall k :: present <= k < |absences| ==> absences[k]
  }

  // ---- The bits --------------------------------------------------------------------------------------

  lemma {:induction false} PackedBit(bits: seq<bool>, k: nat)
    ensures Bit(PackBits(bits), k) <==> k < |bits| && bits[k]
    decreases k
  {
    if bits == [] {
      NoBits(k);
    } else if k > 0 {
      PackedBit(bits[1..], k - 1);
      assert PackBits(bits) / 2 == PackBits(bits[1..]);
    }
  }

  lemma {:induction false} PackLength(bits: seq<bool>)
    ensures |Pack(bits)| == (|bits| + 7) / 8
  {
    if |bits| <= 8 {
    } else {
      PackLength(bits[8..]);
    }
  }

  lemma {:induction false} PackedAt(bits: seq<bool>, k: nat)
    requires k < |bits|
    ensures k / 8 < |Pack(bits)| && (Bit(Pack(bits)[k / 8], k % 8) <==> bits[k])
  {
    PackLength(bits);
    if |bits| <= 8 {
      PackedBit(bits, k);
    } else if k < 8 {
      PackedBit(bits[..8], k);
    } else {
      PackedAt(bits[8..], k - 8);
      assert k / 8 == (k - 8) / 8 + 1 && k % 8 == (k - 8) % 8;
    }
  }

  lemma {:induction false} AbsencesGrow(fields: seq<Field>, cells: seq<Cell>, m: nat, n: nat)
    requires m <= n <= |fields| == |cells|
    ensures Absences(fields, cells, m) <= Absences(fields, cells, n)
    decreases n
  {
    if m == n {
    } else {
      AbsencesGrow(fields, cells, m, n - 1);
    }
  }

  lemma {:induction false} AbsencesCount(fields: seq<Field>, cells: seq<Cell>, n: nat)
    requires n <= |fields| == |cells|
    ensures |Absences(fields, cells, n)| == Nullables(fields[..n])
    decreases n
  {
    if n == 0 {
    } else {
      AbsencesCount(fields, cells, n - 1);
      assert fields[..n][..n - 1] == fields[..n - 1];
    }
  }

  lemma {:induction false} AbsenceOf(fields: seq<Field>, cells: seq<Cell>, i: nat)
    requires i < |fields| == |cells| && fields[i].nullable
    ensures var all, k := Absences(fields, cells, |fields|), |Absences(fields, cells, i)|;
      k < |all| && all[k] == cells[i].Absent?
  {
    AbsencesGrow(fields, cells, i + 1, |fields|);
  }

  /** A null bit of a row that begins with packed bits. */
  lemma {:induction false} NullBitSays(bits: seq<bool>, present: nat, k: nat, row: seq<byte>)
    requires present <= |bits| && k < |bits| && (forall j :: present <= j < |bits| ==> bits[j])
    requires Pack(bits[..present]) <= row
    ensures (present + 7) / 8 <= |row| && (NullBit(row, (present + 7) / 8, present, k) <==> bits[k])
  {
    var bitmap := Pack(bits[..present]);
    PackLength(bits[..present]);
    if k < present {
      PackedAt(bits[..present], k);
      assert row[k / 8] == bitmap[k / 8];
    }
  }

  // ---- The values ------------------------------------------------------------------------------------

  /** Where a value comes to lie that is written at a place. */
  function SlotFor(kind: FieldType, c: Cell, at: nat): Slot {
    match c
    case Absent => Null
    case Present(content) =>
      if kind == ObjectId then Implied
      else At(if Lengthy(kind) then at + |VaruintBytes(|content|)| else at, |content|)
  }

  function Slots(fields: seq<Field>, cells: seq<Cell>, start: nat, n: nat): (slots: seq<Slot>)
    requires n <= |fields| == |cells|
    ensures |slots| == n
  {
    if n == 0 then []
    else
      Slots(fields, cells, start, n - 1)
      + [SlotFor(fields[n - 1].kind, cells[n - 1], start + |Body(fields, cells, n - 1)|)]
  }

  lemma {:induction false} LengthRead(row: seq<byte>, at: nat, content: seq<byte>)
    requires at <= |row| && VaruintBytes(|content|) + content <= row[at..] && |content| < TWO_64
    ensures ReadVaruint(row[at..]) == Read(|content|, |VaruintBytes(|content|)|)
  {
    var prefix := VaruintBytes(|content|);
    VaruintRoundTrip(|content|, row[at..][|prefix|..]);
    assert row[at..] == prefix + row[at..][|prefix|..];
  }

  lemma {:induction false} LengthyIsRead(how: Access, index: nat, kind: FieldType, content: seq<byte>, row: seq<byte>, at: nat)
    requires Lengthy(kind) && |content| < TWO_64 && at <= |row| && VaruintBytes(|content|) + content <= row[at..]
    ensures var prefix := |VaruintBytes(|content|)|;
      ReadSlot(how, index, kind, row, at) == Some(Placed(At(at + prefix, |content|), at + prefix + |content|))
  {
    LengthRead(row, at, content);
  }

  lemma {:induction false} FixedIsRead(how: Access, index: nat, f: Field, content: seq<byte>, row: seq<byte>, at: nat)
    requires Suits(f, Present(content)) && !Lengthy(f.kind) && at + |content| <= |row|
    ensures ReadSlot(how, index, f.kind, row, at)
         == Some(if f.kind == ObjectId then Placed(Implied, at) else Placed(At(at, |content|), at + |content|))
  {
  }

  /** A value that is there is read where it was written, whichever way rows are read. */
  lemma {:induction false} CellIsRead(how: Access, index: nat, f: Field, c: Cell, row: seq<byte>, at: nat)
    requires c.Present? && Suits(f, c) && at <= |row| && CellBytes(f.kind, c) <= row[at..]
    ensures ReadSlot(how, index, f.kind, row, at) == Some(Placed(SlotFor(f.kind, c, at), at + |CellBytes(f.kind, c)|))
  {
    if Lengthy(f.kind) {
      LengthyIsRead(how, index, f.kind, c.content, row, at);
    } else {
      FixedIsRead(how, index, f, c.content, row, at);
    }
  }

  lemma {:induction false} BodyGrows(fields: seq<Field>, cells: seq<Cell>, m: nat, n: nat)
    requires m <= n <= |fields| == |cells|
    ensures Body(fields, cells, m) <= Body(fields, cells, n)
    decreases n
  {
    if m == n {
    } else {
      BodyGrows(fields, cells, m, n - 1);
    }
  }

  lemma {:induction false} PieceInside(front: seq<byte>, piece: seq<byte>, whole: seq<byte>)
    requires front + piece <= whole
    ensures |front| <= |whole| && piece <= whole[|front|..]
  {
    assert whole[..|front| + |piece|] == front + piece;
    assert whole[|front|..][..|piece|] == whole[..|front| + |piece|][|front|..] == piece;
  }

  lemma {:induction false} AppendInside(a: seq<byte>, front: seq<byte>, piece: seq<byte>, whole: seq<byte>)
    requires front + piece <= whole
    ensures a + front + piece <= a + whole
  {
    assert a + front + piece == a + (front + piece);
  }

  lemma {:induction false} PieceBehind(a: seq<byte>, front: seq<byte>, piece: seq<byte>, rest: seq<byte>, whole: seq<byte>)
    requires whole == a + rest && front + piece <= rest
    ensures |a| + |front| + |piece| <= |whole| && piece <= whole[|a| + |front|..]
  {
    AppendInside(a, front, piece, rest);
    PieceInside(a + front, piece, whole);
  }

  lemma {:induction false} PieceStays(some: seq<byte>, whole: seq<byte>, at: nat, piece: seq<byte>)
    requires some <= whole && at <= |some| && piece <= some[at..]
    ensures piece <= whole[at..]
  {
    assert whole[at..][..|piece|] == some[at..][..|piece|];
  }

  /** Behind the bitmap and the values before it lie a value's own bytes, whatever follows. */
  lemma {:induction false} CellIsThere(fields: seq<Field>, cells: seq<Cell>, bitmap: seq<byte>, i: nat, row: seq<byte>)
    requires i < |fields| == |cells| && bitmap + Body(fields, cells, |fields|) <= row
    ensures var at := |bitmap| + |Body(fields, cells, i)|;
      at + |CellBytes(fields[i].kind, cells[i])| <= |row| && CellBytes(fields[i].kind, cells[i]) <= row[at..]
  {
    var front, cell := Body(fields, cells, i), CellBytes(fields[i].kind, cells[i]);
    BodyGrows(fields, cells, i + 1, |fields|);
    PieceBehind(bitmap, front, cell, Body(fields, cells, |fields|), bitmap + Body(fields, cells, |fields|));
    PieceStays(bitmap + Body(fields, cells, |fields|), row, |bitmap| + |front|, cell);
  }

  // ---- The layout ------------------------------------------------------------------------------------

  function WrittenLayout(fields: seq<Field>, cells: seq<Cell>, present: nat, n: nat): Layout
    requires n <= |fields| == |cells|
  {
    var bytes := (present + 7) / 8;
    Layout(Slots(fields, cells, bytes, n), |Absences(fields, cells, n)|, bytes + |Body(fields, cells, n)|)
  }

  /** A field's bytes begin here, and the k-th null bit, if it has one, says whether it is absent. */
  ghost predicate StandsAt(f: Field, c: Cell, row: seq<byte>, at: nat, bytes: nat, present: nat, k: nat) {
    && bytes <= |row| && at <= |row| && Suits(f, c) && CellBytes(f.kind, c) <= row[at..]
    && (f.nullable ==> (NullBit(row, bytes, present, k) <==> c.Absent?))
  }

  ghost predicate Stands(fields: seq<Field>, cells: seq<Cell>, present: nat, row: seq<byte>, i: nat)
    requires i < |fields| == |cells|
  {
    var l := WrittenLayout(fields, cells, present, i);
    StandsAt(fields[i], cells[i], row, l.end, (present + 7) / 8, present, l.bits)
  }

  lemma {:induction false} FieldStands(fields: seq<Field>, cells: seq<Cell>, present: nat, bitmap: seq<byte>, i: nat, row: seq<byte>)
    requires i < |fields| == |cells| && Suits(fields[i], cells[i])
    requires |bitmap| == (present + 7) / 8 && bitmap + Body(fields, cells, |fields|) <= row
    requires fields[i].nullable ==> (NullBit(row, |bitmap|, present, |Absences(fields, cells, i)|) <==> cells[i].Absent?)
    ensures Stands(fields, cells, present, row, i)
  {
    CellIsThere(fields, cells, bitmap, i, row);
  }

  /** Whatever follows the values, every field stands where it was written. */
  lemma {:induction false} AllStand(fields: seq<Field>, cells: seq<Cell>, present: nat, row: seq<byte>)
    requires Writable(fields, cells, present) && Row(fields, cells, present) <= row
    ensures (present + 7) / 8 <= |row| && (present + 7) / 8 + |Body(fields, cells, |fields|)| == |Row(fields, cells, present)|
    ensures forall i :: 0 <= i < |fields| ==> Stands(fields, cells, present, row, i)
  {
    var bits := Absences(fields, cells, |fields|);
    var bitmap := Pack(bits[..present]);
    PackLength(bits[..present]);
    assert bitmap <= row by { assert bitmap <= bitmap + Body(fields, cells, |fields|); }
    forall i | 0 <= i < |fields|
      ensures Stands(fields, cells, present, row, i)
    {
      if fields[i].nullable {
        AbsenceOf(fields, cells, i);
        NullBitSays(bits, present, |Absences(fields, cells, i)|, row);
      }
      FieldStands(fields, cells, present, bitmap, i, row);
    }
  }

  /** What one more field adds to a layout. */
  function NextLayout(f: Field, c: Cell, l: Layout): Layout {
    Layout(l.slots + [SlotFor(f.kind, c, l.end)], if f.nullable then l.bits + 1 else l.bits, l.end + |CellBytes(f.kind, c)|)
  }

  lemma {:induction false} CellIsPlaced(how: Access, index: nat, f: Field, c: Cell, row: seq<byte>, bytes: nat, present: nat, l: Layout)
    requires StandsAt(f, c, row, l.end, bytes, present, l.bits)
    ensures PlaceField(how, index, f, row, bytes, present, l) == Some(NextLayout(f, c, l))
  {
    if c.Present? {
      CellIsRead(how, index, f, c, row, l.end);
    }
  }

  lemma {:induction false} LayoutGrows(fields: seq<Field>, cells: seq<Cell>, present: nat, i: nat)
    requires i < |fields| == |cells|
    ensures WrittenLayout(fields, cells, present, i + 1) == NextLayout(fields[i], cells[i], WrittenLayout(fields, cells, present, i))
  {
  }

  lemma {:induction false} StandingIsPlaced(how: Access, fields: seq<Field>, cells: seq<Cell>, present: nat, i: nat, row: seq<byte>, l: Layout)
    requires i < |fields| == |cells| && (present + 7) / 8 <= |row|
    requires StandsAt(fields[i], cells[i], row, l.end, (present + 7) / 8, present, l.bits)
    requires Place(how, fields, row, (present + 7) / 8, present, i) == Some(l)
    ensures Place(how, fields, row, (present + 7) / 8, present, i + 1) == Some(NextLayout(fields[i], cells[i], l))
  {
    CellIsPlaced(how, i, fields[i], cells[i], row, (present + 7) / 8, present, l);
  }

  lemma {:induction false} WrittenPlaces(how: Access, fields: seq<Field>, cells: seq<Cell>, present: nat, n: nat, row: seq<byte>)
    requires n <= |fields| == |cells| && (present + 7) / 8 <= |row|
    requires forall i :: 0 <= i < |fields| ==> Stands(fields, cells, present, row, i)
    ensures Place(how, fields, row, (present + 7) / 8, present, n) == Some(WrittenLayout(fields, cells, present, n))
    decreases n
  {
    if n == 0 {
    } else {
      WrittenPlaces(how, fields, cells, present, n - 1, row);
      assert Stands(fields, cells, present, row, n - 1);
      StandingIsPlaced(how, fields, cells, present, n - 1, row, WrittenLayout(fields, cells, present, n - 1));
      LayoutGrows(fields, cells, present, n - 1);
    }
  }

  function WrittenChoice(fields: seq<Field>, cells: seq<Cell>, present: nat): Choice
    requires |fields| == |cells|
  {
    Choice((present + 7) / 8, present, WrittenLayout(fields, cells, present, |fields|))
  }

  /**
   * A row that begins as it was written fits that layout, whichever way it is read, exactly if nothing but
   * zeros follows.
   */
  lemma {:induction false} PaddedFits(how: Access, fields: seq<Field>, cells: seq<Cell>, present: nat, row: seq<byte>)
    requires Writable(fields, cells, present) && Row(fields, cells, present) <= row
    ensures var c := WrittenChoice(fields, cells, present);
      && Tried(fields, row, c.bytes, c.present) && c.layout.end == |Row(fields, cells, present)|
      && Fit(how, fields, row, c.bytes, c.present)
         == if forall i :: |Row(fields, cells, present)| <= i < |row| ==> row[i] == 0 then Some(c.layout) else None
  {
    AllStand(fields, cells, present, row);
    WrittenPlaces(how, fields, cells, present, |fields|, row);
    AbsencesCount(fields, cells, |fields|);
    assert fields[..|fields|] == fields;
  }

  /** A written row with zeros behind it is always accepted, and in its own layout exactly if no other leaves less of it, or as much and is tried earlier. */
  lemma {:induction false} PaddedIsRead(how: Access, fields: seq<Field>, cells: seq<Cell>, present: nat, row: seq<byte>)
    requires Writable(fields, cells, present) && Row(fields, cells, present) <= row
    requires forall i :: |Row(fields, cells, present)| <= i < |row| ==> row[i] == 0
    ensures var best, c := Best(how, fields, row), WrittenChoice(fields, cells, present);
      && best.Some? && best.value.layout.end >= |Row(fields, cells, present)|
      && (best == Some(c) <==> forall b: nat, p: nat :: Tried(fields, row, b, p) ==> NotBetter(Fit(how, fields, row, b, p), b, p, c))
  {
    var best, c := Best(how, fields, row), WrittenChoice(fields, cells, present);
    PaddedFits(how, fields, cells, present, row);
    BestIsFirstLeast(how, fields, row);
    assert best.Some? ==> NotBetter(Fit(how, fields, row, c.bytes, c.present), c.bytes, c.present, best.value);
    if forall b: nat, p: nat :: Tried(fields, row, b, p) ==> NotBetter(Fit(how, fields, row, b, p), b, p, c) {
      FirstLeastIsBest(how, fields, row, c);
    }
  }

  /** A written row fills the layout it was written in. */
  lemma {:induction false} WrittenFits(how: Access, fields: seq<Field>, cells: seq<Cell>, present: nat, row: seq<byte>)
    requires Writable(fields, cells, present) && row == Row(fields, cells, present)
    ensures var c := WrittenChoice(fields, cells, present);
      Tried(fields, row, c.bytes, c.present) && Fit(how, fields, row, c.bytes, c.present) == Some(c.layout) && c.layout.end == |row|
  {
    PaddedFits(how, fields, cells, present, row);
  }

  /** With bits left out a row is read back as it was written exactly when no layout tried earlier fills it as well. */
  lemma {:induction false} ShortBitmapIsRead(how: Access, fields: seq<Field>, cells: seq<Cell>, present: nat, row: seq<byte>)
    requires Writable(fields, cells, present) && row == Row(fields, cells, present)
    ensures var c := WrittenChoice(fields, cells, present);
      Best(how, fields, row) == Some(c) <==>
        forall b: nat, p: nat :: Tried(fields, row, b, p) && Before(b, p, c) ==> !Exactly(Fit(how, fields, row, b, p), row)
  {
    WrittenFits(how, fields, cells, present, row);
    WrittenIsRead(how, fields, row, WrittenChoice(fields, cells, present));
  }

  // ---- The values in the layout ----------------------------------------------------------------------

  /** Where a field was placed are its own bytes, or nowhere if it has none. */
  predicate Holds(kind: FieldType, c: Cell, row: seq<byte>, slot: Slot) {
    match c
    case Absent => slot == Null
    case Present(content) =>
      if kind == ObjectId then slot == Implied
      else slot.At? && slot.start + slot.size <= |row| && slot.size == |content| && row[slot.start..slot.start + slot.size] == content
  }

  lemma {:induction false} SlotsGrow(fields: seq<Field>, cells: seq<Cell>, start: nat, m: nat, n: nat)
    requires m <= n <= |fields| == |cells|
    ensures Slots(fields, cells, start, m) <= Slots(fields, cells, start, n)
    decreases n
  {
    if m == n {
    } else {
      SlotsGrow(fields, cells, start, m, n - 1);
    }
  }

  lemma {:induction false} ContentIsThere(kind: FieldType, c: Cell, row: seq<byte>, at: nat)
    requires at <= |row| && CellBytes(kind, c) <= row[at..]
    ensures Holds(kind, c, row, SlotFor(kind, c, at))
  {
    if c.Present? && kind != ObjectId {
      var prefix := if Lengthy(kind) then VaruintBytes(|c.content|) else [];
      PieceIs(prefix, c.content, row, at);
    }
  }

  lemma {:induction false} PieceIs(prefix: seq<byte>, content: seq<byte>, row: seq<byte>, at: nat)
    requires at <= |row| && prefix + content <= row[at..]
    ensures var start := at + |prefix|;
      start + |content| <= |row| && row[start..start + |content|] == content
  {
    PieceInside(prefix, content, row[at..]);
    var start := at + |prefix|;
    assert row[at..][|prefix|..][..|content|] == row[start..start + |content|];
  }

  lemma {:induction false} WrittenSlot(fields: seq<Field>, cells: seq<Cell>, present: nat, i: nat)
    requires i < |fields| == |cells|
    ensures WrittenLayout(fields, cells, present, |fields|).slots[i]
         == SlotFor(fields[i].kind, cells[i], WrittenLayout(fields, cells, present, i).end)
  {
    SlotsGrow(fields, cells, (present + 7) / 8, i + 1, |fields|);
  }

  lemma {:induction false} CellIsHeld(fields: seq<Field>, cells: seq<Cell>, present: nat, i: nat, row: seq<byte>)
    requires Writable(fields, cells, present) && i < |fields| && row == Row(fields, cells, present)
    ensures Holds(fields[i].kind, cells[i], row, WrittenLayout(fields, cells, present, |fields|).slots[i])
  {
    WrittenSlot(fields, cells, present, i);
    AllStand(fields, cells, present, row);
    assert Stands(fields, cells, present, row, i);
    ContentIsThere(fields[i].kind, cells[i], row, WrittenLayout(fields, cells, present, i).end);
  }

  lemma {:induction false} BitmapIsThere(fields: seq<Field>, cells: seq<Cell>, row: seq<byte>)
    requires Writable(fields, cells, Nullables(fields)) && row == Row(fields, cells, Nullables(fields))
    ensures BitmapBytes(Nullables(fields)) <= |row| && row[..BitmapBytes(Nullables(fields))] == Pack(Absences(fields, cells, |fields|))
  {
    AbsencesCount(fields, cells, |fields|);
    assert fields[..|fields|] == fields;
    PackLength(Absences(fields, cells, |fields|));
    assert Absences(fields, cells, |fields|)[..Nullables(fields)] == Absences(fields, cells, |fields|);
  }

  // ---- A row with its whole bitmap -------------------------------------------------------------------

  /** The row of these values, with a bit for every nullable field. */
  ghost predicate Written(fields: seq<Field>, cells: seq<Cell>, row: seq<byte>) {
    Writable(fields, cells, Nullables(fields)) && row == Row(fields, cells, Nullables(fields))
  }

  /** A choice whose bitmap is that of the absences and whose places hold every value. */
  ghost predicate Recovers(fields: seq<Field>, cells: seq<Cell>, row: seq<byte>, c: Choice) {
    && |c.layout.slots| == |fields| == |cells| && c.bytes <= |row|
    && row[..c.bytes] == Pack(Absences(fields, cells, |fields|))
    && forall i :: 0 <= i < |fields| ==> Holds(fields[i].kind, cells[i], row, c.layout.slots[i])
  }

  /** Every search, by pointer or through the reader, comes to a layout that holds what was written, and is defined. */
  lemma {:induction false} WrittenIsRecovered(how: Access, fields: seq<Field>, cells: seq<Cell>, row: seq<byte>)
    requires Written(fields, cells, row)
    ensures Best(how, fields, row).Some? && Recovers(fields, cells, row, Best(how, fields, row).value)
    ensures |row| < TWO_32 ==> !UnclearRow(how, fields, row)
  {
    var n := Nullables(fields);
    WrittenFits(how, fields, cells, n, row);
    WholeBitmapWins(how, fields, row, WrittenLayout(fields, cells, n, |fields|));
    BitmapIsThere(fields, cells, row);
    forall i | 0 <= i < |fields|
      ensures Holds(fields[i].kind, cells[i], row, WrittenLayout(fields, cells, n, |fields|).slots[i])
    {
      CellIsHeld(fields, cells, n, i, row);
    }
    if |row| < TWO_32 {
      WholeRowIsClear(how, fields, row, WrittenLayout(fields, cells, n, |fields|));
    }
  }

  /** A search that finds the whole bitmap to fill the row looks no further. */
  lemma {:induction false} WholeRowIsClear(how: Access, fields: seq<Field>, row: seq<byte>, l: Layout)
    requires BitmapBytes(Nullables(fields)) <= |row| < TWO_32
    requires Fit(how, fields, row, BitmapBytes(Nullables(fields)), Nullables(fields)) == Some(l) && l.end == |row|
    ensures !UnclearRow(how, fields, row)
  {
    var n := Nullables(fields);
    forall b: nat, p: nat | Visited(how, fields, row, b, p)
      ensures !Unclear(how, fields, row, b, p)
    {
      assert Tried(fields, row, BitmapBytes(n), n);
      assert Earlier(BitmapBytes(n), n, b, p) || (b == BitmapBytes(n) && p == n);
      StoppedClear(how, fields, row, BitmapBytes(n), n, |fields|);
    }
  }

  // ---- What comes back -------------------------------------------------------------------------------

  /** The FID plus one, as a signed number of 32 bits. */
  predicate IsIdOf(id: int, fid: uint32) {
    -(TWO_32 / 2) <= id < TWO_32 / 2 && (id == fid + 1 || id == fid + 1 - TWO_32)
  }

  /** What a geometry scan calls back with. */
  function GeometryOf(kind: FieldType, c: Cell, fid: uint32): Scan.Call {
    match c
    case Absent => Scan.Call(fid, None, true)
    case Present(content) => Scan.Call(fid, if kind == ObjectId then None else Some(content), false)
  }

  /** Whatever meets the contract of the search for the geometry has its null flag and points at its bytes. */
  lemma {:induction false} GeometryIsLocated(fields: seq<Field>, cells: seq<Cell>, row: seq<byte>, wanted: nat, result: Scanners.GeometryLocation)
    requires Written(fields, cells, row) && wanted < |fields| && Lengthy(fields[wanted].kind)
    requires result.accepted <==> Best(ByPointer, fields, row).Some?
    requires result.accepted ==> Scanners.Located(fields, wanted, Best(ByPointer, fields, row).value, result)
    ensures result.accepted && (result.isNull <==> cells[wanted].Absent?)
    ensures !result.isNull ==>
      && result.geometry.Some? && result.geometry.value + result.size <= |row|
      && row[result.geometry.value..result.geometry.value + result.size] == cells[wanted].content
  {
    WrittenIsRecovered(ByPointer, fields, cells, row);
    assert Holds(fields[wanted].kind, cells[wanted], row, Best(ByPointer, fields, row).value.layout.slots[wanted]);
  }

  lemma {:induction false} CallIsMade(kind: FieldType, c: Cell, row: seq<byte>, slot: Slot, fid: uint32)
    requires Holds(kind, c, row, slot)
    ensures Scan.CallFor(fid, slot, row) == GeometryOf(kind, c, fid)
  {
  }

  /** A geometry scan hands out exactly the bytes written, or null. */
  lemma {:induction false} GeometryIsHandedOut(fields: seq<Field>, cells: seq<Cell>, row: seq<byte>, wanted: nat, fid: uint32)
    requires Written(fields, cells, row) && wanted < |fields| && row != []
    ensures Scan.CallOf(fields, wanted, fid, row) == GeometryOf(fields[wanted].kind, cells[wanted], fid)
  {
    WrittenIsRecovered(ByPointer, fields, cells, row);
    CallIsMade(fields[wanted].kind, cells[wanted], row, Best(ByPointer, fields, row).value.layout.slots[wanted], fid);
  }

  /** A reference says what its field holds; a raster is reported null. */
  predicate RefSays(ref: Scanners.FieldRef, kind: FieldType, c: Cell, row: seq<byte>, fid: uint32) {
    && ref.kind == kind && IsIdOf(ref.implied, fid)
    && (ref.isNull <==> c.Absent? || kind == Raster)
    && (ref.data.Some? <==> !ref.isNull && kind != ObjectId) && (ref.data.None? ==> ref.size == 0)
    && (ref.data.Some? ==> ref.data.value + ref.size <= |row| && c.Present? && row[ref.data.value..ref.data.value + ref.size] == c.content)
  }

  lemma {:induction false} RefIsFilled(kind: FieldType, c: Cell, row: seq<byte>, slot: Slot, fid: uint32)
    requires Holds(kind, c, row, slot)
    ensures RefSays(Scanners.RefOf(kind, slot, fid), kind, c, row, fid)
  {
    IdIsNext(fid);
  }

  lemma IdIsNext(fid: uint32)
    ensures IsIdOf(Scanners.ImpliedId(fid), fid)
  {
  }

  /** Whatever meets the contract of the searches that fill references says of every field what it holds. */
  lemma {:induction false} FieldsAreReferred(fields: seq<Field>, cells: seq<Cell>, row: seq<byte>, fid: uint32, refs: seq<Scanners.FieldRef>)
    requires Written(fields, cells, row)
    requires Best(ByPointer, fields, row).Some? ==> Scanners.Referred(fields, Best(ByPointer, fields, row).value, fid, refs)
    ensures |refs| == |fields| == |cells| && forall i :: 0 <= i < |fields| ==> RefSays(refs[i], fields[i].kind, cells[i], row, fid)
  {
    WrittenIsRecovered(ByPointer, fields, cells, row);
    var slots := Best(ByPointer, fields, row).value.layout.slots;
    forall i | 0 <= i < |fields|
      ensures RefSays(refs[i], fields[i].kind, cells[i], row, fid)
    {
      RefIsFilled(fields[i].kind, cells[i], row, slots[i], fid);
    }
  }

  /** So does what a candidate scan calls back with. */
  lemma {:induction false} FieldsAreHandedOut(fields: seq<Field>, cells: seq<Cell>, row: seq<byte>, fid: uint32)
    requires Written(fields, cells, row) && row != []
    ensures var call := Fields.Rendered(fields, fid, row);
      && call.Some? && call.value.fid == fid && call.value.row == row && |call.value.refs| == |fields| == |cells|
      && forall i :: 0 <= i < |fields| ==> RefSays(call.value.refs[i], fields[i].kind, cells[i], row, fid)
  {
    WrittenIsRecovered(ByPointer, fields, cells, row);
    FieldsAreReferred(fields, cells, row, fid, Scanners.Refs(fields, Best(ByPointer, fields, row).value.layout.slots, fid));
  }

  /** The value a record has for a field: a geometry and a raster are left out. */
  predicate ValueSays(v: Value, kind: FieldType, c: Cell, fid: uint32) {
    if kind == Geometry then v == Text([])
    else
      match c
      case Absent => v == Nothing
      case Present(content) =>
        match kind
        case ObjectId => v.Id? && IsIdOf(v.id, fid)
        case Raster => v == Nothing
        case String | Xml => v == Text(content)
        case Binary => v == Blob(content)
        case _ => v == Scalar(kind, content)
  }

  lemma {:induction false} ValueIsTaken(style: Style, index: nat, kind: FieldType, c: Cell, row: seq<byte>, slot: Slot, fid: uint32)
    requires Holds(kind, c, row, slot)
    ensures var v := FieldValue(style, index, kind, slot, row, fid);
      if style.Projected? && !Selected(style.projection, index) then v == Nothing
      else if style.Projected? && kind == Geometry then v in {Text([]), Nothing}
      else ValueSays(v, kind, c, fid)
  {
  }

  /** The record read of a written row is defined and succeeds, with its bitmap and every value that went in. */
  lemma {:induction false} RecordIsRead(fields: seq<Field>, cells: seq<Cell>, row: seq<byte>, fid: uint32)
    requires Written(fields, cells, row) && 0 < |row| < TWO_32
    ensures var r := RecordOutcome(fields, row, fid);
      && r.Took? && r.value.fid == fid && r.value.blobLength == |row|
      && r.value.nullFlags == Pack(Absences(fields, cells, |fields|))
      && |r.value.values| == |fields| == |cells|
      && forall i :: 0 <= i < |fields| ==> ValueSays(r.value.values[i], fields[i].kind, cells[i], fid)
  {
    WrittenIsRecovered(ByReader(All), fields, cells, row);
    var c := Best(ByReader(All), fields, row).value;
    forall i | 0 <= i < |fields|
      ensures ValueSays(FieldValue(WithoutGeometry, i, fields[i].kind, c.layout.slots[i], row, fid), fields[i].kind, cells[i], fid)
    {
      ValueIsTaken(WithoutGeometry, i, fields[i].kind, cells[i], row, c.layout.slots[i], fid);
    }
  }

  /** What a feature read makes of the table's geometry. */
  function DecodedCell(fields: seq<Field>, cells: seq<Cell>, record: Record, decode: seq<byte> -> GeometryValue): Outcome
    requires |fields| == |cells|
  {
    match GeometryField(fields, 0)
    case None => Complete(record, NoGeometryField)
    case Some(g) =>
      match cells[g]
      case Absent => Complete(record, NullGeometry)
      case Present(content) =>
        var decoded := decode(content);
        if decoded.Decoded? && decoded.usable then Complete(record, decoded) else BadGeometry(decoded)
  }

  lemma {:induction false} GeometryIsMet(fields: seq<Field>, cells: seq<Cell>, row: seq<byte>, c: Choice, record: Record,
                                         decode: seq<byte> -> GeometryValue)
    requires Recovers(fields, cells, row, c) && OneGeometry(fields)
    ensures WithGeometry(fields, row, record, MetUpTo(fields, c.layout.slots, |fields|), decode) == DecodedCell(fields, cells, record, decode)
  {
    var g := GeometryField(fields, 0);
    if g.Some? {
      MetOnly(fields, c.layout.slots, g.value, |fields|);
      assert Holds(fields[g.value].kind, cells[g.value], row, c.layout.slots[g.value]);
    }
  }

  /** Under any projection the inner feature read is defined, and decodes the bytes written for the geometry. */
  lemma {:induction false} FeatureIsRead(fields: seq<Field>, cells: seq<Cell>, row: seq<byte>, fid: uint32, p: Projection,
                                         decode: seq<byte> -> GeometryValue)
    requires Written(fields, cells, row) && 0 < |row| < TWO_32 && OneGeometry(fields)
    ensures !UnclearRow(ByReader(p), fields, row)
    ensures var c := Best(ByReader(p), fields, row);
      && c.Some? && Recovers(fields, cells, row, c.value)
      && FeatureRead(fields, row, fid, p, decode) == DecodedCell(fields, cells, RecordOf(Projected(p), fields, row, c.value, fid), decode)
  {
    WrittenIsRecovered(ByReader(p), fields, cells, row);
    var c := Best(ByReader(p), fields, row).value;
    GeometryIsMet(fields, cells, row, c, RecordOf(Projected(p), fields, row, c, fid), decode);
  }

  /** Whether and as what the written geometry can be handed out. */
  function HandedGeometry(fields: seq<Field>, cells: seq<Cell>, decode: seq<byte> -> GeometryValue): (r: (bool, GeometryValue))
    requires |fields| == |cells|
  {
    match GeometryField(fields, 0)
    case None => (true, NoGeometryField)
    case Some(g) =>
      if cells[g].Absent? then (true, NullGeometry)
      else
        var decoded := decode(cells[g].content);
        (decoded.Decoded? && decoded.usable, decoded)
  }

  /** A value under a projection. */
  predicate WantedSays(p: Projection, index: nat, v: Value, kind: FieldType, c: Cell, fid: uint32) {
    if Selected(p, index) then ValueSays(v, kind, c, fid) else v == Nothing
  }

  lemma {:induction false} PublishedValue(fields: seq<Field>, cells: seq<Cell>, row: seq<byte>, c: Choice, fid: uint32, p: Projection, i: nat)
    requires Recovers(fields, cells, row, c) && OneGeometry(fields) && i < |fields| && InRange(p, |fields|)
    ensures var values := WithEmptyGeometry(fields, p, Projecting(p, RecordOf(Projected(p), fields, row, c, fid))).values;
      |values| == |fields| && WantedSays(p, i, values[i], fields[i].kind, cells[i], fid)
  {
    ValueIsTaken(Projected(p), i, fields[i].kind, cells[i], row, c.layout.slots[i], fid);
  }

  lemma {:induction false} PublishedAs(fields: seq<Field>, cells: seq<Cell>, row: seq<byte>, fid: uint32, p: Projection,
                                       decode: seq<byte> -> GeometryValue, was: Record, wasGeometry: GeometryValue, record: Record)
    requires |record.values| == |fields| == |cells| && InRange(p, |fields|)
    requires FeatureRead(fields, row, fid, p, decode) == DecodedCell(fields, cells, record, decode)
    ensures var f := PublicRead(fields, row, fid, p, decode, was, wasGeometry);
      && (f.ok, f.geometry) == HandedGeometry(fields, cells, decode)
      && (f.ok ==> f.record == WithEmptyGeometry(fields, p, Projecting(p, record)))
  {
  }

  /**
   * The public read of a written row is defined, and succeeds exactly when the geometry can be handed out.
   * The record then has every wanted value that went in, and nothing where none is wanted.
   */
  lemma {:induction false} FeatureIsPublished(fields: seq<Field>, cells: seq<Cell>, row: seq<byte>, fid: uint32, p: Projection,
                                              decode: seq<byte> -> GeometryValue, was: Record, wasGeometry: GeometryValue, i: nat)
    requires Written(fields, cells, row) && 0 < |row| < TWO_32 && OneGeometry(fields) && i < |fields|
    requires p.Only? ==> forall k :: 0 <= k < |p.indices| ==> p.indices[k] < |fields|
    ensures !UnclearRow(ByReader(p), fields, row)
    ensures var f := PublicRead(fields, row, fid, p, decode, was, wasGeometry);
      && |cells| == |fields| && (f.ok, f.geometry) == HandedGeometry(fields, cells, decode)
      && (f.ok ==> |f.record.values| == |fields| && WantedSays(p, i, f.record.values[i], fields[i].kind, cells[i], fid))
      && (f.ok ==> if p.All? then f.record.materialized == []
                   else |f.record.materialized| == |fields| && f.record.materialized[i] == if i in p.indices then 1 else 0)
  {
    FeatureIsRead(fields, cells, row, fid, p, decode);
    var c := Best(ByReader(p), fields, row).value;
    PublishedAs(fields, cells, row, fid, p, decode, was, wasGeometry, RecordOf(Projected(p), fields, row, c, fid));
    PublishedValue(fields, cells, row, c, fid, p, i);
  }

  lemma {:induction false} RefusedAs(fields: seq<Field>, cells: seq<Cell>, row: seq<byte>, fid: uint32, p: Projection,
                                     decode: seq<byte> -> GeometryValue, was: Record, wasGeometry: GeometryValue, record: Record)
    requires |record.values| == |fields| == |cells| && p.Only? && !InRange(p, |fields|)
    requires FeatureRead(fields, row, fid, p, decode) == DecodedCell(fields, cells, record, decode)
    ensures var f := PublicRead(fields, row, fid, p, decode, was, wasGeometry);
      && !f.ok && f.geometry == HandedGeometry(fields, cells, decode).1
      && (HandedGeometry(fields, cells, decode).0 ==>
            f.record == record.(materialized := Marks(InRangePart(p.indices, |fields|), |fields|)))
  {
  }

  /**
   * A projection that names a field the table does not have fails after the row was read: the record is there
   * with the values that were wanted, and marked up to the first such index.
   */
  lemma {:induction false} FeatureIsRefused(fields: seq<Field>, cells: seq<Cell>, row: seq<byte>, fid: uint32, p: Projection, n: nat,
                                            decode: seq<byte> -> GeometryValue, was: Record, wasGeometry: GeometryValue, i: nat)
    requires Written(fields, cells, row) && 0 < |row| < TWO_32 && OneGeometry(fields) && i < |fields|
    requires p.Only? && n < |p.indices| && p.indices[n] >= |fields| && forall k :: 0 <= k < n ==> p.indices[k] < |fields|
    ensures |cells| == |fields|
    ensures var f := PublicRead(fields, row, fid, p, decode, was, wasGeometry);
      && !f.ok && f.geometry == HandedGeometry(fields, cells, decode).1
      && (HandedGeometry(fields, cells, decode).0 ==>
            && |f.record.values| == |f.record.materialized| == |fields| && f.record.fid == fid
            && f.record.materialized[i] == (if i in p.indices[..n] then 1 else 0)
            && (fields[i].kind != Geometry ==> WantedSays(p, i, f.record.values[i], fields[i].kind, cells[i], fid)))
  {
    FeatureIsRead(fields, cells, row, fid, p, decode);
    var c := Best(ByReader(p), fields, row).value;
    RefusedAs(fields, cells, row, fid, p, decode, was, wasGeometry, RecordOf(Projected(p), fields, row, c, fid));
    InRangePartIs(p.indices, |fields|, n);
    ValueIsTaken(Projected(p), i, fields[i].kind, cells[i], row, c.layout.slots[i], fid);
  }

  // ---- Rows without bytes ----------------------------------------------------------------------------

  /** A field that a row without bytes can do without; a record leaves its geometry out anyway. */
  predicate CanBeMissing(style: Style, f: Field) {
    f.kind == ObjectId || f.nullable || (style.WithoutGeometry? && f.kind == Geometry)
  }

  /** What is made up for it. */
  predicate MadeUp(style: Style, v: Value, kind: FieldType, fid: uint32) {
    if kind == ObjectId then v.Id? && IsIdOf(v.id, fid)
    else v == if style.WithoutGeometry? && kind == Geometry then Text([]) else Nothing
  }

  lemma {:induction false} ZeroFieldIsMadeUp(style: Style, f: Field, fid: uint32, z: Zero)
    requires f.nullable ==> z.bits / 8 < |z.flags|
    ensures var next := ZeroField(style, f, fid, z);
      && (next.Some? <==> CanBeMissing(style, f))
      && (next.Some? ==> |next.value.values| == |z.values| + 1 && next.value.values[..|z.values|] == z.values
                         && MadeUp(style, next.value.values[|z.values|], f.kind, fid))
  {
    IdIsNext(fid);
  }

  ghost predicate MadeUpTo(style: Style, fields: seq<Field>, fid: uint32, n: nat, z: Option<Zero>)
    requires n <= |fields|
  {
    && (z.Some? <==> forall i :: 0 <= i < n ==> CanBeMissing(style, fields[i]))
    && (z.Some? ==> |z.value.values| == n && forall i :: 0 <= i < n ==> MadeUp(style, z.value.values[i], fields[i].kind, fid))
  }

  lemma {:induction false} MadeUpNext(style: Style, fields: seq<Field>, fid: uint32, n: nat, z: Zero)
    requires n < |fields| && MadeUpTo(style, fields, fid, n, Some(z)) && (fields[n].nullable ==> z.bits / 8 < |z.flags|)
    ensures MadeUpTo(style, fields, fid, n + 1, ZeroField(style, fields[n], fid, z))
  {
    ZeroFieldIsMadeUp(style, fields[n], fid, z);
    var next := ZeroField(style, fields[n], fid, z);
    forall i | 0 <= i < n && next.Some?
      ensures MadeUp(style, next.value.values[i], fields[i].kind, fid)
    {
      assert next.value.values[i] == next.value.values[..n][i];
    }
  }

  lemma {:induction false} ZeroIsMadeUp(style: Style, fields: seq<Field>, fid: uint32, n: nat)
    requires n <= |fields|
    ensures MadeUpTo(style, fields, fid, n, ZeroUpTo(style, fields, fid, n))
    decreases n
  {
    if n == 0 {
    } else {
      ZeroIsMadeUp(style, fields, fid, n - 1);
      var z := ZeroUpTo(style, fields, fid, n - 1);
      if z.Some? {
        if fields[n - 1].nullable {
          NextFlagFits(fields, n - 1);
        }
        MadeUpNext(style, fields, fid, n - 1, z.value);
      }
    }
  }

  /** A row without bytes is a record exactly if every field but the FID and the geometry may be null: nothing but its FID. */
  lemma {:induction false} NothingIsARecord(fields: seq<Field>, fid: uint32)
    ensures var r := RecordOutcome(fields, [], fid);
      && !r.UndefinedRead? && (r.Took? <==> forall i :: 0 <= i < |fields| ==> CanBeMissing(WithoutGeometry, fields[i]))
      && (r.Took? ==>
            && r.value.fid == fid && r.value.blobLength == 0 && |r.value.nullFlags| == (Nullables(fields) + 7) / 8
            && |r.value.values| == |fields|
            && forall i :: 0 <= i < |fields| ==> MadeUp(WithoutGeometry, r.value.values[i], fields[i].kind, fid))
  {
    ZeroIsMadeUp(WithoutGeometry, fields, fid, |fields|);
  }

  /** As a feature its geometry must be nullable too, and is null. */
  lemma {:induction false} NothingIsAFeature(fields: seq<Field>, fid: uint32, p: Projection, decode: seq<byte> -> GeometryValue)
    ensures var r := FeatureOutcome(fields, [], fid, p, decode);
      && r.Took? && (r.value.Complete? <==> forall i :: 0 <= i < |fields| ==> CanBeMissing(Projected(All), fields[i]))
      && (!r.value.Complete? ==> r.value.Failed?)
      && (r.value.Complete? ==>
            && r.value.geometry == (if exists g :: 0 <= g < |fields| && fields[g].kind == Geometry then NullGeometry else NoGeometryField)
            && r.value.record.fid == fid && |r.value.record.values| == |fields|
            && forall i :: 0 <= i < |fields| ==> MadeUp(Projected(All), r.value.record.values[i], fields[i].kind, fid))
  {
    ZeroIsMadeUp(Projected(All), fields, fid, |fields|);
  }
}
