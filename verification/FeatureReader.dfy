/**
 * Reading one feature: the wanted fields and the geometry in one pass over the row, and the public
 * wrapper that masks the projection and keeps the geometry's slot an empty text.
 */
module FeatureReader {
  import opened Bytes
  import opened Varint
  import opened RowLayout
  import opened RecordReader
  import Reader = BinaryReader
  import Scan = GeometryScan
  import Scanners = RowScanners

  // ---- The geometry of a layout ----------------------------------------------------------------------

  /** Where the geometry was met.  Once a geometry field was null, the null flag stays. */
  datatype GeometrySlice = GeometrySlice(present: bool, isNull: bool, index: nat, offset: nat, size: nat)

  function MeetGeometry(g: GeometrySlice, index: nat, kind: FieldType, slot: Slot): GeometrySlice {
    if kind != Geometry then g
    else
      match slot
      case Null => g.(present := true, isNull := true, index := index)
      case Implied => g
      case At(start, size) => g.(present := true, index := index, offset := start, size := size)
  }

  function MetUpTo(fields: seq<Field>, slots: seq<Slot>, n: nat): GeometrySlice
    requires n <= |slots| <= |fields|
  {
    if n == 0 then GeometrySlice(false, false, 0, 0, 0)
    else MeetGeometry(MetUpTo(fields, slots, n - 1), n - 1, fields[n - 1].kind, slots[n - 1])
  }

  /** A geometry field that was met, null or with bytes. */
  predicate MetAt(fields: seq<Field>, slots: seq<Slot>, i: nat) {
    i < |slots| && i < |fields| && fields[i].kind == Geometry && slots[i] != Implied
  }

  ghost predicate AnyMet(fields: seq<Field>, slots: seq<Slot>, n: nat, onlyNull: bool) {
    exists i: nat :: i < n && MetAt(fields, slots, i) && (onlyNull ==> slots[i].Null?)
  }

  /** The last geometry field among the first n, of all or of those with bytes. */
  ghost predicate LastMet(fields: seq<Field>, slots: seq<Slot>, n: nat, i: nat, withBytes: bool) {
    && i < n && MetAt(fields, slots, i) && (withBytes ==> slots[i].At?)
    && forall k :: i < k < n && MetAt(fields, slots, k) ==> withBytes && !slots[k].At?
  }

  lemma {:induction false} AnyMetNext(fields: seq<Field>, slots: seq<Slot>, n: nat, onlyNull: bool)
    ensures AnyMet(fields, slots, n + 1, onlyNull) <==>
      AnyMet(fields, slots, n, onlyNull) || (MetAt(fields, slots, n) && (onlyNull ==> slots[n].Null?))
  {
  }

  lemma {:induction false} LastMetNext(fields: seq<Field>, slots: seq<Slot>, n: nat, i: nat, withBytes: bool)
    ensures LastMet(fields, slots, n + 1, i, withBytes) <==>
      if MetAt(fields, slots, n) && (withBytes ==> slots[n].At?) then i == n else LastMet(fields, slots, n, i, withBytes)
  {
  }

  /**
   * What is kept of the geometry fields of a row, should there be several: the index of the last, the place of
   * the last that has bytes, and whether any was null.
   */
  lemma {:induction false} MetSays(fields: seq<Field>, slots: seq<Slot>, n: nat, i: nat)
    requires n <= |slots| <= |fields|
    ensures var met := MetUpTo(fields, slots, n);
      && (met.present <==> AnyMet(fields, slots, n, false)) && (met.isNull <==> AnyMet(fields, slots, n, true))
      && (LastMet(fields, slots, n, i, false) ==> met.index == i)
      && (LastMet(fields, slots, n, i, true) ==> met.offset == slots[i].start && met.size == slots[i].size)
  {
    if n == 0 {
    } else {
      MetSays(fields, slots, n - 1, i);
      AnyMetNext(fields, slots, n - 1, false);
      AnyMetNext(fields, slots, n - 1, true);
      LastMetNext(fields, slots, n - 1, i, false);
      LastMetNext(fields, slots, n - 1, i, true);
    }
  }

  lemma {:induction false} MetPrefix(fields: seq<Field>, slots: seq<Slot>, slot: Slot, n: nat)
    requires n <= |slots| < |fields|
    ensures MetUpTo(fields, slots + [slot], n) == MetUpTo(fields, slots, n)
  {
    if n == 0 {
    } else {
      MetPrefix(fields, slots, slot, n - 1);
    }
  }

  lemma {:induction false} MetOneMore(fields: seq<Field>, slots: seq<Slot>, slot: Slot)
    requires |slots| < |fields|
    ensures MetUpTo(fields, slots + [slot], |slots| + 1)
         == MeetGeometry(MetUpTo(fields, slots, |slots|), |slots|, fields[|slots|].kind, slot)
  {
    MetPrefix(fields, slots, slot, |slots|);
  }

  predicate FoundSoFar(p: Projection, fields: seq<Field>, slots: seq<Slot>, row: seq<byte>, fid: uint32, values: seq<Value>, met: GeometrySlice) {
    ValuesSoFar(Projected(p), fields, slots, row, fid, values) && met == MetUpTo(fields, slots, |slots|)
  }

  lemma {:induction false} OneMoreFound(p: Projection, fields: seq<Field>, slots: seq<Slot>, slot: Slot, row: seq<byte>, fid: uint32,
                                        values: seq<Value>, met: GeometrySlice)
    requires FoundSoFar(p, fields, slots, row, fid, values, met) && |slots| < |fields|
    ensures FoundSoFar(p, fields, slots + [slot], row, fid,
                       values + [FieldValue(Projected(p), |slots|, fields[|slots|].kind, slot, row, fid)],
                       MeetGeometry(met, |slots|, fields[|slots|].kind, slot))
  {
    OneMoreValue(Projected(p), fields, slots, slot, row, fid, values);
    MetOneMore(fields, slots, slot);
  }

  // ---- One layout ------------------------------------------------------------------------------------

  datatype Found = Found(record: Record, geometry: GeometrySlice, tell: nat)

  predicate FoundAs(p: Projection, fields: seq<Field>, row: seq<byte>, c: Choice, fid: uint32, record: Record, geometry: GeometrySlice) {
    && Recorded(Projected(p), fields, row, c, fid, record)
    && geometry == MetUpTo(fields, c.layout.slots, |fields|)
  }

  /** field_is_selected */
  method FieldIsSelected(p: Projection, index: nat) returns (selected: bool)
    ensures selected <==> Selected(p, index)
  {
    if p.All? {
      return true;
    }
    var at := 0;
    while at < |p.indices| && p.indices[at] != index
      invariant at <= |p.indices| && index !in p.indices[..at]
    {
      at := at + 1;
    }
    selected := at < |p.indices|;
  }

  method TakeFeatureValue(reader: Reader.BinaryReader, kind: FieldType, p: Projection, index: nat, fid: uint32, met: GeometrySlice)
    returns (r: Taken<Value>, geometry: GeometrySlice)
    requires reader.Valid() && |reader.data| < TWO_32
    modifies reader
    ensures reader.Valid()
    ensures var slot := ReadSlot(ByReader(p), index, kind, reader.data, old(reader.pos));
      match r
      case Took(v) =>
        && slot.Some? && reader.pos == slot.value.end
        && v == FieldValue(Projected(p), index, kind, slot.value.slot, reader.data, fid)
        && geometry == MeetGeometry(met, index, kind, slot.value.slot)
      case Dropped => slot.None? && !UnclearAt(ByReader(p), index, kind, reader.data, old(reader.pos))
      case UndefinedRead => UnclearAt(ByReader(p), index, kind, reader.data, old(reader.pos))
  {
    geometry := met;
    var selected := FieldIsSelected(p, index);
    if !Prefixed(kind) {
      r := TakeFixed(reader, kind, fid, ByReader(p), index);
      if r.Took? && !selected {
        r := Took(Nothing);
      }
      return;
    }
    var piece := TakePrefixed(reader, kind, kind != Geometry && kind != Raster && selected, ByReader(p), index);
    match piece
    case Dropped => r := Dropped;
    case UndefinedRead => r := UndefinedRead;
    case Took(content) =>
      if kind == Geometry {
        geometry := met.(present := true, index := index, offset := content.start, size := content.size);
        r := Took(if selected then Text([]) else Nothing);
      } else if kind == Raster || !selected {
        r := Took(Nothing);
      } else {
        r := Took(if kind == Binary then Blob(content.bytes) else Text(content.bytes));
      }
  }

  /** One field of a layout: null by its flag, or read. */
  method FeatureField(reader: Reader.BinaryReader, f: Field, flags: seq<byte>, present: nat, p: Projection, index: nat, fid: uint32,
                      met: GeometrySlice, bit: nat, ghost l: Layout)
    returns (r: Taken<Value>, geometry: GeometrySlice)
    requires reader.Valid() && |flags| <= |reader.data| < TWO_32 && flags == reader.data[..|flags|] && present <= 8 * |flags|
    requires reader.pos == l.end && bit == l.bits
    modifies reader
    ensures reader.Valid()
    ensures var row, placed := reader.data, PlaceField(ByReader(p), index, f, reader.data, |flags|, present, l);
      match r
      case Took(v) =>
        && placed.Some? && reader.pos == placed.value.end
        && var slot := placed.value.slots[|l.slots|];
          v == FieldValue(Projected(p), index, f.kind, slot, row, fid) && geometry == MeetGeometry(met, index, f.kind, slot)
      case Dropped => placed.None? && !UnclearAt(ByReader(p), index, f.kind, row, l.end)
      case UndefinedRead => !(f.nullable && NullBit(row, |flags|, present, l.bits)) && UnclearAt(ByReader(p), index, f.kind, row, l.end)
  {
    if f.nullable && FlaggedNull(flags, reader.data, present, bit) {
      geometry := if f.kind == Geometry then met.(present := true, isNull := true, index := index) else met;
      return Took(Nothing), geometry;
    }
    r, geometry := TakeFeatureValue(reader, f.kind, p, index, fid, met);
  }

  /** The fields before the i-th are placed, their values taken and the geometry among them met. */
  predicate FoundUpTo(p: Projection, fields: seq<Field>, row: seq<byte>, bytes: nat, present: nat, fid: uint32, i: nat, l: Layout,
                      values: seq<Value>, met: GeometrySlice)
    requires bytes <= |row|
  {
    && i <= |fields| && Place(ByReader(p), fields, row, bytes, present, i) == Some(l)
    && FoundSoFar(p, fields, l.slots, row, fid, values, met)
  }

  lemma {:induction false} FindOneMore(p: Projection, fields: seq<Field>, row: seq<byte>, bytes: nat, present: nat, fid: uint32, i: nat,
                                       l: Layout, values: seq<Value>, met: GeometrySlice, next: Layout)
    requires bytes <= |row| && i < |fields| && FoundUpTo(p, fields, row, bytes, present, fid, i, l, values, met)
    requires PlaceField(ByReader(p), i, fields[i], row, bytes, present, l) == Some(next)
    ensures FoundUpTo(p, fields, row, bytes, present, fid, i + 1, next,
                      values + [FieldValue(Projected(p), i, fields[i].kind, next.slots[i], row, fid)],
                      MeetGeometry(met, i, fields[i].kind, next.slots[i]))
  {
    OneMoreFound(p, fields, l.slots, next.slots[i], row, fid, values, met);
  }

  /** All fields behind the bitmap. */
  method FeatureFields(reader: Reader.BinaryReader, fields: seq<Field>, flags: seq<byte>, present: nat, fid: uint32, p: Projection)
    returns (r: Taken<seq<Value>>, met: GeometrySlice)
    requires reader.Valid() && reader.pos == |flags| <= |reader.data| < TWO_32
    requires flags == reader.data[..|flags|] && present <= 8 * |flags|
    modifies reader
    ensures reader.Valid()
    ensures var l := Place(ByReader(p), fields, reader.data, |flags|, present, |fields|);
      match r
      case Took(values) => l.Some? && reader.pos == l.value.end && FoundSoFar(p, fields, l.value.slots, reader.data, fid, values, met)
      case Dropped => l.None? && !Unclear(ByReader(p), fields, reader.data, |flags|, present)
      case UndefinedRead => Unclear(ByReader(p), fields, reader.data, |flags|, present)
  {
    met := GeometrySlice(false, false, 0, 0, 0);
    var values: seq<Value> := [];
    var bit := 0;
    ghost var row, bytes, l := reader.data, |flags|, Layout([], 0, |flags|);
    for i := 0 to |fields|
      invariant reader.Valid() && reader.pos == l.end && bit == l.bits
      invariant FoundUpTo(p, fields, row, bytes, present, fid, i, l, values, met)
    {
      ghost var before, seen := l, met;
      var taken;
      taken, met := FeatureField(reader, fields[i], flags, present, p, i, fid, met, bit, l);
      match taken
      case Dropped =>
        StoppedAt(ByReader(p), fields, row, bytes, present, i);
        return Dropped, met;
      case UndefinedRead =>
        assert UnclearIn(ByReader(p), fields, row, bytes, present, i);
        return UndefinedRead, met;
      case Took(value) =>
        l := PlaceField(ByReader(p), i, fields[i], row, bytes, present, before).value;
        FindOneMore(p, fields, row, bytes, present, fid, i, before, values, seen, l);
        values := values + [value];
        bit := if fields[i].nullable then bit + 1 else bit;
    }
    r := Took(values);
  }

  /** Given up where a field cannot be placed, and otherwise the record and geometry of this layout. */
  predicate FeatureTaken(p: Projection, fields: seq<Field>, row: seq<byte>, bytes: nat, present: nat, fid: uint32, r: Taken<Found>)
    requires bytes <= |row|
  {
    var l := Place(ByReader(p), fields, row, bytes, present, |fields|);
    && (r.Dropped? ==> l.None?)
    && (r.Took? ==>
          && l.Some? && r.value.tell == l.value.end
          && FoundAs(p, fields, row, Choice(bytes, present, l.value), fid, r.value.record, r.value.geometry))
  }

  method FeatureUnder(fields: seq<Field>, row: seq<byte>, bytes: nat, present: nat, fid: uint32, p: Projection) returns (r: Taken<Found>)
    requires bytes <= |row| < TWO_32 && present <= 8 * bytes
    ensures r.UndefinedRead? <==> Unclear(ByReader(p), fields, row, bytes, present)
    ensures FeatureTaken(p, fields, row, bytes, present, fid, r)
  {
    var reader := new Reader.BinaryReader(row);
    var flags: seq<byte> := [];
    if bytes > 0 {
      var read := reader.NextBytes(bytes);
      flags := read.value;
    }
    var taken, met := FeatureFields(reader, fields, flags, present, fid, p);
    match taken
    case Dropped => r := Dropped;
    case UndefinedRead => r := UndefinedRead;
    case Took(values) =>
      StoppedClear(ByReader(p), fields, row, bytes, present, |fields|);
      r := Took(Found(Record(fid, |row|, flags, values, []), met, reader.pos));
  }

  /** The loop's own best so far, with its record and geometry. */
  ghost predicate FeatureKept(p: Projection, fields: seq<Field>, row: seq<byte>, fid: uint32, best: Option<Choice>, found: bool,
                              padding: nat, record: Record, geometry: GeometrySlice)
  {
    && Scanners.Follows(row, best, found, padding)
    && (best.Some? ==> FoundAs(p, fields, row, best.value, fid, record, geometry))
  }

  /** A layout replaces the best so far exactly if its rest is zero and its padding less. */
  lemma FeatureKeptNext(p: Projection, fields: seq<Field>, row: seq<byte>, bytes: nat, present: nat, fid: uint32, best: Option<Choice>,
                        found: bool, padding: nat, record: Record, geometry: GeometrySlice, candidate: Taken<Found>)
    requires bytes <= |row| && FeatureKept(p, fields, row, fid, best, found, padding, record, geometry)
    requires FeatureTaken(p, fields, row, bytes, present, fid, candidate) && !candidate.UndefinedRead?
    ensures var next := Better(best, bytes, present, Fit(ByReader(p), fields, row, bytes, present));
      if candidate.Took? && ZeroFrom(row, candidate.value.tell) && |row| - candidate.value.tell < padding then
        && FeatureKept(p, fields, row, fid, next, true, |row| - candidate.value.tell, candidate.value.record, candidate.value.geometry)
        && (Exact(row, next) <==> candidate.value.tell == |row|)
      else next == best
  {
  }

  method SearchFeature(fields: seq<Field>, row: seq<byte>, fid: uint32, p: Projection) returns (r: Taken<(Record, GeometrySlice)>)
    requires |row| < TWO_32
    ensures r.UndefinedRead? <==> UnclearRow(ByReader(p), fields, row)
    ensures var best := Best(ByReader(p), fields, row);
      && (r.Dropped? ==> best.None?)
      && (r.Took? ==> best.Some? && FoundAs(p, fields, row, best.value, fid, r.value.0, r.value.1))
  {
    var bytes: nat, bestPadding: nat, found := BitmapBytes(Nullables(fields)), TWO_64 - 1, false;
    var record, geometry := Record(0, 0, [], [], []), GeometrySlice(false, false, 0, 0, 0);
    ghost var how, best: Option<Choice> := ByReader(p), None;
    while true
      invariant AtBytes(how, fields, row, bytes, best)
      invariant FeatureKept(p, fields, row, fid, best, found, bestPadding, record, geometry)
      decreases bytes
    {
      if bytes <= |row| {
        var present: int := MostBits(Nullables(fields), bytes);
        while present >= 0
          invariant OnTrack(how, fields, row, bytes, present, best)
          invariant FeatureKept(p, fields, row, fid, best, found, bestPadding, record, geometry)
        {
          var candidate := FeatureUnder(fields, row, bytes, present, fid, p);
          if candidate.UndefinedRead? {
            TriedUnclear(how, fields, row, bytes, present, best);
            return UndefinedRead;
          }
          TriedOne(how, fields, row, bytes, present, best);
          FeatureKeptNext(p, fields, row, bytes, present, fid, best, found, bestPadding, record, geometry, candidate);
          best := Better(best, bytes, present, Fit(how, fields, row, bytes, present));
          present := present - 1;
          if candidate.Took? {
            var padding := |row| - candidate.value.tell;
            var zero := Scanners.AllZero(row, candidate.value.tell);
            if zero && padding < bestPadding {
              bestPadding := padding;
              record, geometry := candidate.value.record, candidate.value.geometry;
              found := true;
              if padding == 0 {
                break;
              }
            }
          }
        }
      }
      if found && bestPadding == 0 {
        break;
      }
      TriedBytes(how, fields, row, bytes, best);
      if bytes == 0 {
        break;
      }
      bytes := bytes - 1;
    }
    r := if found then Took((record, geometry)) else Dropped;
  }

  // ---- The feature -----------------------------------------------------------------------------------

  /** Decoding and writing a geometry is left open: some value, usable or not. */
  datatype GeometryValue = NoGeometryField | NullGeometry | Decoded(usable: bool, wkb: seq<byte>)

  /** The first geometry field. */
  function GeometryField(fields: seq<Field>, from: nat): (r: Option<nat>)
    requires from <= |fields|
    ensures r.Some? ==> from <= r.value < |fields| && fields[r.value].kind == Geometry
    ensures r.Some? ==> forall i :: from <= i < r.value ==> fields[i].kind != Geometry
    ensures r.None? ==> forall i :: from <= i < |fields| ==> fields[i].kind != Geometry
    decreases |fields| - from
  {
    if from == |fields| then None
    else if fields[from].kind == Geometry then Some(from)
    else GeometryField(fields, from + 1)
  }

  datatype Outcome = Complete(record: Record, geometry: GeometryValue) | BadGeometry(geometry: GeometryValue) | Failed

  /** What becomes of the record and the geometry met in its row. */
  function WithGeometry(fields: seq<Field>, row: seq<byte>, record: Record, met: GeometrySlice, decode: seq<byte> -> GeometryValue): Outcome {
    if GeometryField(fields, 0).None? then Complete(record, NoGeometryField)
    else if !met.present then Failed
    else if met.isNull then Complete(record, NullGeometry)
    else if met.index >= |fields| || met.offset + met.size > |row| then Failed
    else
      var decoded := decode(row[met.offset..met.offset + met.size]);
      if decoded.Decoded? && decoded.usable then Complete(record, decoded) else BadGeometry(decoded)
  }

  function FeatureRead(fields: seq<Field>, row: seq<byte>, fid: uint32, p: Projection, decode: seq<byte> -> GeometryValue): Outcome {
    if row == [] then
      match ZeroRecord(Projected(All), fields, fid)
      case None => Failed
      case Some(record) => Complete(record, if GeometryField(fields, 0).None? then NoGeometryField else NullGeometry)
    else
      match Best(ByReader(p), fields, row)
      case None => Failed
      case Some(c) =>
        if |c.layout.slots| != |fields| || c.bytes > |row| then Failed
        else
          WithGeometry(fields, row, RecordOf(Projected(p), fields, row, c, fid), MetUpTo(fields, c.layout.slots, |fields|), decode)
  }

  /** One field of a feature without bytes: the bitmap after it and its value. */
  method FeatureZeroField(f: Field, fid: uint32, flags: seq<byte>, current: nat, ghost values: seq<Value>)
    returns (ok: bool, flagged: seq<byte>, value: Value)
    requires f.nullable ==> current / 8 < |flags|
    ensures var z := ZeroField(Projected(All), f, fid, Zero(flags, values, current));
      if ok then z == Some(Zero(flagged, values + [value], if f.nullable then current + 1 else current)) else z.None?
  {
    ok, flagged, value := true, flags, Nothing;
    if f.kind == ObjectId {
      value := Id(Scanners.ImpliedId(fid));
      return;
    }
    if !f.nullable {
      ok := false;
      return;
    }
    flagged := Flagged(flags, current);
  }

  method MaterializeZeroLengthRecord(fields: seq<Field>, fid: uint32) returns (r: Taken<Record>)
    ensures r == if ZeroRecord(Projected(All), fields, fid).Some? then Took(ZeroRecord(Projected(All), fields, fid).value) else Dropped
  {
    var flags: seq<byte> := seq(BitmapBytes(Nullables(fields)), _ => 0);
    var values: seq<Value>, bit := [], 0;
    for i := 0 to |fields|
      invariant ZeroUpTo(Projected(All), fields, fid, i) == Some(Zero(flags, values, bit))
    {
      if fields[i].nullable {
        NextFlagFits(fields, i);
      }
      var ok, flagged, value := FeatureZeroField(fields[i], fid, flags, bit, values);
      if !ok {
        ZeroStuck(Projected(All), fields, fid, i + 1, |fields|);
        return Dropped;
      }
      flags, values := flagged, values + [value];
      bit := if fields[i].nullable then bit + 1 else bit;
    }
    r := Took(Record(fid, 0, flags, values, []));
  }

  /** What the inner read comes to. */
  ghost function FeatureOutcome(fields: seq<Field>, row: seq<byte>, fid: uint32, p: Projection, decode: seq<byte> -> GeometryValue): Taken<Outcome> {
    if row != [] && UnclearRow(ByReader(p), fields, row) then UndefinedRead else Took(FeatureRead(fields, row, fid, p, decode))
  }

  /** On failure the caller's record stays as it was. */
  method ReadFeatureInternal(fields: seq<Field>, row: seq<byte>, fid: uint32, p: Projection, decode: seq<byte> -> GeometryValue)
    returns (r: Taken<Outcome>)
    requires |row| < TWO_32
    ensures r == FeatureOutcome(fields, row, fid, p, decode)
  {
    if row == [] {
      var zero := MaterializeZeroLengthRecord(fields, fid);
      if zero.Dropped? {
        return Took(Failed);
      }
      var geometry := if GeometryField(fields, 0).None? then NoGeometryField else NullGeometry;
      return Took(Complete(zero.value, geometry));
    }
    var found := SearchFeature(fields, row, fid, p);
    match found
    case UndefinedRead => r := UndefinedRead;
    case Dropped => r := Took(Failed);
    case Took(f) =>
      var (record, met) := f;
      r := Took(WithGeometry(fields, row, record, met, decode));
  }

  // ---- The public wrapper ----------------------------------------------------------------------------

  function Marks(indices: seq<nat>, count: nat): (r: seq<byte>)
    ensures |r| == count
  {
    seq(count, i => if i in indices then 1 else 0)
  }

  /** The indices before the first that is out of range. */
  function InRangePart(indices: seq<nat>, count: nat): (r: seq<nat>)
    ensures r <= indices
  {
    if indices == [] || indices[0] >= count then [] else [indices[0]] + InRangePart(indices[1..], count)
  }

  lemma {:induction false} InRangePartIs(indices: seq<nat>, count: nat, n: nat)
    requires n <= |indices| && (forall i :: 0 <= i < n ==> indices[i] < count) && (n < |indices| ==> indices[n] >= count)
    ensures InRangePart(indices, count) == indices[..n]
  {
    if n == 0 {
    } else {
      var rest := indices[1..];
      assert rest[..n - 1] == indices[1..n] by { InRangePartIs(rest, count, n - 1); }
      assert InRangePart(rest, count) == rest[..n - 1] by { InRangePartIs(rest, count, n - 1); }
    }
  }

  /** The values whose mark is set. */
  function Masked(values: seq<Value>, marks: seq<byte>): (r: seq<Value>)
    requires |values| == |marks|
    ensures |r| == |values|
  {
    seq(|values|, i requires 0 <= i < |values| => if marks[i] == 0 then Nothing else values[i])
  }

  /** The geometry's slot, if it is there and wanted, is an empty text. */
  function WithEmptyGeometry(fields: seq<Field>, p: Projection, record: Record): Record {
    var g := GeometryField(fields, 0);
    if g.Some? && g.value < |record.values| && Selected(p, g.value) then record.(values := record.values[g.value := Text([])])
    else record
  }

  predicate InRange(p: Projection, count: nat) {
    p.Only? ==> forall i :: 0 <= i < |p.indices| ==> p.indices[i] < count
  }

  /** The record a complete read hands out. */
  function Projecting(p: Projection, record: Record): Record {
    if p.All? then record
    else
      var marks := Marks(p.indices, |record.values|);
      record.(materialized := marks, values := Masked(record.values, marks))
  }

  datatype Feature = Feature(ok: bool, record: Record, geometry: GeometryValue)

  /** read_feature_by_fid; a projection out of range fails with the record marked up to there and not masked. */
  function PublicRead(fields: seq<Field>, row: seq<byte>, fid: uint32, p: Projection, decode: seq<byte> -> GeometryValue,
                      was: Record, wasGeometry: GeometryValue): Feature {
    match FeatureRead(fields, row, fid, p, decode)
    case Complete(record, geometry) =>
      if InRange(p, |record.values|) then Feature(true, WithEmptyGeometry(fields, p, Projecting(p, record)), geometry)
      else Feature(false, record.(materialized := Marks(InRangePart(p.indices, |record.values|), |record.values|)), geometry)
    case BadGeometry(geometry) => Feature(false, WithEmptyGeometry(fields, p, was), geometry)
    case Failed => Feature(false, WithEmptyGeometry(fields, p, was), wasGeometry)
  }

  /** A read that does not come through leaves the caller's record alone, but for the geometry's slot if it is wanted. */
  lemma FailureKeepsRecord(fields: seq<Field>, row: seq<byte>, fid: uint32, p: Projection, decode: seq<byte> -> GeometryValue,
                           was: Record, wasGeometry: GeometryValue, i: nat)
    requires !FeatureRead(fields, row, fid, p, decode).Complete? && i < |was.values|
    ensures var f := PublicRead(fields, row, fid, p, decode, was, wasGeometry);
      && !f.ok && |f.record.values| == |was.values| && f.record == was.(values := f.record.values)
      && f.record.values[i] == (if GeometryField(fields, 0) == Some(i) && Selected(p, i) then Text([]) else was.values[i])
      && f.geometry == if FeatureRead(fields, row, fid, p, decode).Failed? then wasGeometry else FeatureRead(fields, row, fid, p, decode).geometry
  {
  }

  /** Marks up to the first index that is out of range. */
  method Mark(indices: seq<nat>, count: nat) returns (inRange: bool, marks: seq<byte>)
    ensures |marks| == count
    ensures inRange <==> forall i :: 0 <= i < |indices| ==> indices[i] < count
    ensures marks == Marks(InRangePart(indices, count), count)
    ensures inRange ==> marks == Marks(indices, count)
  {
    marks := seq(count, _ => 0);
    for i := 0 to |indices|
      invariant |marks| == count && forall k :: 0 <= k < i ==> indices[k] < count
      invariant forall j :: 0 <= j < count ==> marks[j] == if j in indices[..i] then 1 else 0
    {
      if indices[i] >= count {
        InRangePartIs(indices, count, i);
        return false, marks;
      }
      marks := marks[indices[i] := 1];
    }
    inRange := true;
    InRangePartIs(indices, count, |indices|);
    assert indices[..|indices|] == indices;
  }

  method Mask(values: seq<Value>, marks: seq<byte>) returns (masked: seq<Value>)
    requires |values| == |marks|
    ensures masked == Masked(values, marks)
  {
    masked := values;
    for i := 0 to |values|
      invariant |masked| == |values|
      invariant forall k :: 0 <= k < |values| ==> masked[k] == if k < i && marks[k] == 0 then Nothing else values[k]
    {
      if marks[i] == 0 {
        masked := masked[i := Nothing];
      }
    }
  }

  method ReadFeatureByFid(fields: seq<Field>, row: seq<byte>, fid: uint32, p: Projection, decode: seq<byte> -> GeometryValue,
                          was: Record, wasGeometry: GeometryValue)
    returns (r: Taken<Feature>)
    requires |row| < TWO_32
    ensures r.UndefinedRead? <==> row != [] && UnclearRow(ByReader(p), fields, row)
    ensures !r.UndefinedRead? ==> r == Took(PublicRead(fields, row, fid, p, decode, was, wasGeometry))
  {
    var inner := ReadFeatureInternal(fields, row, fid, p, decode);
    if inner.UndefinedRead? {
      return UndefinedRead;
    }
    CompleteHasAllFields(fields, row, fid, p, decode);
    var record, geometry, success := was, wasGeometry, false;
    match inner.value {
      case Complete(read, g) => record, geometry, success := read, g, true;
      case BadGeometry(g) => geometry := g;
      case Failed =>
    }
    if success && p.Only? {
      var inRange, marks := Mark(p.indices, |record.values|);
      record := record.(materialized := marks);
      if !inRange {
        return Took(Feature(false, record, geometry));
      }
      var values := Mask(record.values, marks);
      record := record.(values := values);
    }
    r := Took(Feature(success, WithEmptyGeometry(fields, p, record), geometry));
  }

  lemma {:induction false} CompleteHasAllFields(fields: seq<Field>, row: seq<byte>, fid: uint32, p: Projection, decode: seq<byte> -> GeometryValue)
    ensures FeatureRead(fields, row, fid, p, decode).Complete? ==> |FeatureRead(fields, row, fid, p, decode).record.values| == |fields|
  {
  }

  // ---- Projection is a mask --------------------------------------------------------------------------

  lemma {:induction false} MaskedValue(fields: seq<Field>, slots: seq<Slot>, row: seq<byte>, fid: uint32, p: Projection)
    requires p.Only? && |slots| == |fields|
    ensures Masked(Values(Projected(p), fields, slots, row, fid), Marks(p.indices, |fields|))
         == Masked(Values(Projected(All), fields, slots, row, fid), Marks(p.indices, |fields|))
  {
  }

  /** The inner read of some fields and of all differ in the values that are not wanted. */
  ghost predicate SameButMasked(p: Projection, some: Outcome, all: Outcome) {
    match some
    case Complete(record, geometry) =>
      && all.Complete? && all.geometry == geometry && |all.record.values| == |record.values|
      && Projecting(p, record) == Projecting(p, all.record)
    case _ => some == all
  }

  // How the two reads can come to place values differently

  /** The prefix at a position leads past the 64-bit sizes. */
  predicate WrapsAt(row: seq<byte>, at: nat)
    requires at <= |row|
  {
    match ReadVaruint(row[at..])
    case Read(size, prefix) => at + prefix + size >= TWO_64
    case _ => false
  }

  /** A text or blob that is copied when all is wanted, and stepped over by the projection. */
  predicate LeftOut(p: Projection, index: nat, kind: FieldType) {
    kind in {String, Xml, Binary} && !Selected(p, index)
  }

  /** One value is read alike under the projection and as a whole exactly unless a wrapping one is left out. */
  lemma {:induction false} SlotAlikeIff(p: Projection, index: nat, kind: FieldType, row: seq<byte>, at: nat)
    requires at <= |row| < TWO_32
    ensures ReadSlot(ByReader(p), index, kind, row, at) == ReadSlot(ByReader(All), index, kind, row, at)
       <==> !(LeftOut(p, index, kind) && WrapsAt(row, at))
    ensures !(LeftOut(p, index, kind) && WrapsAt(row, at)) ==>
      (UnclearAt(ByReader(p), index, kind, row, at) <==> UnclearAt(ByReader(All), index, kind, row, at))
  {
    ReadWithin(row[at..]);
  }

  ghost predicate WrapsIn(p: Projection, fields: seq<Field>, row: seq<byte>, bytes: nat, present: nat, i: nat)
    requires bytes <= |row| && i < |fields|
  {
    && LeftOut(p, i, fields[i].kind) && Reaches(ByReader(All), fields, row, bytes, present, i)
    && WrapsAt(row, Place(ByReader(All), fields, row, bytes, present, i).value.end)
  }

  /** No value met in this layout both wraps and is left out. */
  ghost predicate WrapFree(p: Projection, fields: seq<Field>, row: seq<byte>, bytes: nat, present: nat)
    requires bytes <= |row|
  {
    forall i :: 0 <= i < |fields| ==> !WrapsIn(p, fields, row, bytes, present, i)
  }

  predicate PlacedAsWhole(p: Projection, fields: seq<Field>, row: seq<byte>, bytes: nat, present: nat, n: nat)
    requires bytes <= |row| && n <= |fields|
  {
    Place(ByReader(p), fields, row, bytes, present, n) == Place(ByReader(All), fields, row, bytes, present, n)
  }

  lemma {:induction false} NextAsWhole(p: Projection, fields: seq<Field>, row: seq<byte>, bytes: nat, present: nat, n: nat)
    requires bytes <= |row| < TWO_32 && n < |fields| && PlacedAsWhole(p, fields, row, bytes, present, n)
    ensures PlacedAsWhole(p, fields, row, bytes, present, n + 1) <==> !WrapsIn(p, fields, row, bytes, present, n)
    ensures !WrapsIn(p, fields, row, bytes, present, n) ==>
      (UnclearIn(ByReader(p), fields, row, bytes, present, n) <==> UnclearIn(ByReader(All), fields, row, bytes, present, n))
  {
    var l := Place(ByReader(All), fields, row, bytes, present, n);
    if l.Some? && Reaches(ByReader(All), fields, row, bytes, present, n) {
      SlotAlikeIff(p, n, fields[n].kind, row, l.value.end);
      if PlacedAsWhole(p, fields, row, bytes, present, n + 1) {
        SamePlacesSameSlot(ByReader(p), ByReader(All), n, fields[n], row, bytes, present, l.value);
      }
    }
  }

  lemma {:induction false} WrapFreeAsWhole(p: Projection, fields: seq<Field>, row: seq<byte>, bytes: nat, present: nat, n: nat)
    requires bytes <= |row| < TWO_32 && n <= |fields| && WrapFree(p, fields, row, bytes, present)
    ensures PlacedAsWhole(p, fields, row, bytes, present, n)
    decreases n
  {
    if n == 0 {
    } else {
      WrapFreeAsWhole(p, fields, row, bytes, present, n - 1);
      NextAsWhole(p, fields, row, bytes, present, n - 1);
    }
  }

  /** A layout is walked alike under the projection and as a whole exactly when nothing that wraps is left out. */
  lemma {:induction false} AsWholeIff(p: Projection, fields: seq<Field>, row: seq<byte>, bytes: nat, present: nat)
    requires bytes <= |row| < TWO_32
    ensures WrapFree(p, fields, row, bytes, present)
       <==> forall n :: 0 <= n <= |fields| ==> PlacedAsWhole(p, fields, row, bytes, present, n)
    ensures WrapFree(p, fields, row, bytes, present) ==>
      && Fit(ByReader(p), fields, row, bytes, present) == Fit(ByReader(All), fields, row, bytes, present)
      && (Unclear(ByReader(p), fields, row, bytes, present) <==> Unclear(ByReader(All), fields, row, bytes, present))
  {
    if WrapFree(p, fields, row, bytes, present) {
      forall n | 0 <= n <= |fields|
        ensures PlacedAsWhole(p, fields, row, bytes, present, n)
        ensures n < |fields| ==>
          (UnclearIn(ByReader(p), fields, row, bytes, present, n) <==> UnclearIn(ByReader(All), fields, row, bytes, present, n))
      {
        WrapFreeAsWhole(p, fields, row, bytes, present, n);
        if n < |fields| {
          NextAsWhole(p, fields, row, bytes, present, n);
        }
      }
      assert PlacedAsWhole(p, fields, row, bytes, present, |fields|);
    } else if forall n :: 0 <= n <= |fields| ==> PlacedAsWhole(p, fields, row, bytes, present, n) {
      forall i | 0 <= i < |fields|
        ensures !WrapsIn(p, fields, row, bytes, present, i)
      {
        assert PlacedAsWhole(p, fields, row, bytes, present, i) && PlacedAsWhole(p, fields, row, bytes, present, i + 1);
        NextAsWhole(p, fields, row, bytes, present, i);
      }
    }
  }

  /** In the layouts the whole read visits, nothing that wraps is left out. */
  ghost predicate WrapFreeRow(p: Projection, fields: seq<Field>, row: seq<byte>) {
    forall b: nat, q: nat :: Visited(ByReader(All), fields, row, b, q) ==> WrapFree(p, fields, row, b, q)
  }

  /** Then the projection visits those layouts, comes to the same one, and is undefined exactly where the whole read is. */
  lemma {:induction false} WrapFreeAgrees(p: Projection, fields: seq<Field>, row: seq<byte>)
    requires |row| < TWO_32 && WrapFreeRow(p, fields, row)
    ensures Best(ByReader(p), fields, row) == Best(ByReader(All), fields, row)
    ensures UnclearRow(ByReader(p), fields, row) <==> UnclearRow(ByReader(All), fields, row)
  {
    forall b: nat, q: nat | Visited(ByReader(All), fields, row, b, q)
      ensures Fit(ByReader(All), fields, row, b, q) == Fit(ByReader(p), fields, row, b, q)
      ensures Unclear(ByReader(p), fields, row, b, q) <==> Unclear(ByReader(All), fields, row, b, q)
    {
      AsWholeIff(p, fields, row, b, q);
    }
    SameFitsSameBest(ByReader(All), ByReader(p), fields, row);
    forall b: nat, q: nat
      ensures Visited(ByReader(p), fields, row, b, q) <==> Visited(ByReader(All), fields, row, b, q)
    {
      SameBestSameVisited(ByReader(p), ByReader(All), fields, row, b, q);
    }
  }

  // The layout the projection comes to

  /**
   * The projection comes to the layout of the whole read exactly unless a layout that fits only by stepping
   * back over a text or blob overtakes it: better than the one the whole read chooses, if it chooses any.
   */
  lemma {:induction false} SameLayoutIff(p: Projection, fields: seq<Field>, row: seq<byte>)
    requires |row| < TWO_32
    ensures Best(ByReader(p), fields, row) == Best(ByReader(All), fields, row) <==> !Overtaken(ByReader(p), ByReader(All), fields, row)
    ensures Best(ByReader(All), fields, row).Some? ==> Best(ByReader(p), fields, row).Some?
  {
    SameBestIff(ByReader(p), ByReader(All), fields, row);
  }

  /** So it does wherever nothing that wraps is left out. */
  lemma {:induction false} WrapFreeNeverOvertaken(p: Projection, fields: seq<Field>, row: seq<byte>)
    requires |row| < TWO_32 && WrapFreeRow(p, fields, row)
    ensures !Overtaken(ByReader(p), ByReader(All), fields, row)
    ensures UnclearRow(ByReader(p), fields, row) <==> UnclearRow(ByReader(All), fields, row)
  {
    WrapFreeAgrees(p, fields, row);
    SameLayoutIff(p, fields, row);
  }

  /** Whatever the schema and the projection: a row at none of whose positions a wrapping prefix begins. */
  lemma {:induction false} WrapFreeEverywhere(p: Projection, fields: seq<Field>, row: seq<byte>)
    requires forall at: nat :: at <= |row| ==> !WrapsAt(row, at)
    ensures WrapFreeRow(p, fields, row)
  {
    forall b: nat, q: nat, i | Visited(ByReader(All), fields, row, b, q) && 0 <= i < |fields|
      ensures !WrapsIn(p, fields, row, b, q, i)
    {
    }
  }

  lemma {:induction false} InnerMask(fields: seq<Field>, row: seq<byte>, fid: uint32, p: Projection, decode: seq<byte> -> GeometryValue)
    requires p.Only?
    requires row != [] ==> Best(ByReader(p), fields, row) == Best(ByReader(All), fields, row)
    ensures SameButMasked(p, FeatureRead(fields, row, fid, p, decode), FeatureRead(fields, row, fid, All, decode))
  {
    var best := Best(ByReader(All), fields, row);
    if row != [] && best.Some? && |best.value.layout.slots| == |fields| {
      MaskedValue(fields, best.value.layout.slots, row, fid, p);
    }
  }

  /**
   * Reading a projection gives the whole feature, in the same layout, with the values that are not wanted
   * emptied: the same success, geometry and null flags.  It does so exactly unless a layout that fits the
   * projection only by stepping back overtakes that of the whole read; a row without bytes has no layout.
   */
  lemma {:induction false} ProjectionIsMask(fields: seq<Field>, row: seq<byte>, fid: uint32, p: Projection,
                                            decode: seq<byte> -> GeometryValue, was: Record, wasGeometry: GeometryValue)
    requires |row| < TWO_32 && p.Only? && InRange(p, |fields|)
    ensures var some, all := PublicRead(fields, row, fid, p, decode, was, wasGeometry), PublicRead(fields, row, fid, All, decode, was, wasGeometry);
      if row == [] then IsMaskOf(p, some, all)
      else
        Best(ByReader(p), fields, row) == Best(ByReader(All), fields, row) && IsMaskOf(p, some, all)
        <==> !Overtaken(ByReader(p), ByReader(All), fields, row)
  {
    SameLayoutIff(p, fields, row);
    if row == [] || !Overtaken(ByReader(p), ByReader(All), fields, row) {
      InnerMask(fields, row, fid, p, decode);
      CompleteHasAllFields(fields, row, fid, p, decode);
      var some, all := FeatureRead(fields, row, fid, p, decode), FeatureRead(fields, row, fid, All, decode);
      if some.Complete? {
        EmptyGeometryCommutes(fields, p, some.record, all.record);
      }
    }
  }

  predicate IsMaskOf(p: Projection, some: Feature, all: Feature) {
    && some.ok == all.ok && some.geometry == all.geometry
    && (some.ok ==> some.record == Projecting(p, all.record))
  }

  /** Reading the whole record fails on the row, whose text leads back to its start. */
  lemma {:induction false} WholeReadFails(row: seq<byte>, fields: seq<Field>, fid: uint32, decode: seq<byte> -> GeometryValue,
                                         was: Record, wasGeometry: GeometryValue)
    requires WrapsToStart(row) && fields == [Field(String, false), Field(Int64, false), Field(Int16, false)]
    ensures !UnclearRow(ByReader(All), fields, row) && !PublicRead(fields, row, fid, All, decode, was, wasGeometry).ok
  {
    WrappedFitsNot(ByReader(All), fields, row);
    WrappedTextClear(ByReader(All), fields, row);
    OneLayout(ByReader(All), fields, row);
  }

  /** A projection that leaves the text out reads the two numbers before it. */
  lemma {:induction false} NumbersAreRead(row: seq<byte>, fields: seq<Field>, p: Projection, fid: uint32,
                                         decode: seq<byte> -> GeometryValue, was: Record, wasGeometry: GeometryValue)
    requires WrapsToStart(row) && fields == [Field(String, false), Field(Int64, false), Field(Int16, false)]
    requires p == Only([1, 2])
    ensures !UnclearRow(ByReader(p), fields, row) && PublicRead(fields, row, fid, p, decode, was, wasGeometry).ok
  {
    assert !Copied(ByReader(p), 0, String);
    WrappedFits(ByReader(p), fields, row);
    OneLayout(ByReader(p), fields, row);
    StoppedClear(ByReader(p), fields, row, 0, 0, 3);
  }

  /** A row refused as a whole, and read, with nothing undefined either way, once the text is left out. */
  lemma {:induction false} ProjectionReadsMore(row: seq<byte>, fields: seq<Field>, p: Projection, fid: uint32,
                                               decode: seq<byte> -> GeometryValue, was: Record, wasGeometry: GeometryValue)
    requires WrapsToStart(row) && fields == [Field(String, false), Field(Int64, false), Field(Int16, false)]
    requires p == Only([1, 2])
    ensures !UnclearRow(ByReader(All), fields, row) && !PublicRead(fields, row, fid, All, decode, was, wasGeometry).ok
    ensures !UnclearRow(ByReader(p), fields, row) && PublicRead(fields, row, fid, p, decode, was, wasGeometry).ok
  {
    WholeReadFails(row, fields, fid, decode, was, wasGeometry);
    NumbersAreRead(row, fields, p, fid, decode, was, wasGeometry);
  }

  lemma {:induction false} EmptyGeometryCommutes(fields: seq<Field>, p: Projection, some: Record, all: Record)
    requires p.Only? && |some.values| == |all.values| && Projecting(p, some) == Projecting(p, all)
    ensures WithEmptyGeometry(fields, p, Projecting(p, some)) == Projecting(p, WithEmptyGeometry(fields, All, all))
  {
    var left, right := WithEmptyGeometry(fields, p, Projecting(p, some)), Projecting(p, WithEmptyGeometry(fields, All, all));
    var g := GeometryField(fields, 0);
    assert left.values == right.values by {
      forall i | 0 <= i < |all.values|
        ensures left.values[i] == right.values[i]
      {
        assert Projecting(p, some).values[i] == Projecting(p, all).values[i];
      }
    }
  }

  // ---- A feature is a record and its geometry --------------------------------------------------------

  ghost predicate OneGeometry(fields: seq<Field>) {
    forall i, j :: 0 <= i < j < |fields| ==> fields[i].kind != Geometry || fields[j].kind != Geometry
  }

  lemma {:induction false} FullValues(fields: seq<Field>, slots: seq<Slot>, row: seq<byte>, fid: uint32, i: nat)
    requires OneGeometry(fields) && |slots| == |fields| && i < |fields|
    ensures var whole, g := Values(Projected(All), fields, slots, row, fid), GeometryField(fields, 0);
      Values(WithoutGeometry, fields, slots, row, fid)[i] == if g == Some(i) then Text([]) else whole[i]
  {
  }

  lemma {:induction false} FullRecord(fields: seq<Field>, row: seq<byte>, c: Choice, fid: uint32)
    requires OneGeometry(fields) && |c.layout.slots| == |fields| && c.bytes <= |row|
    ensures WithEmptyGeometry(fields, All, RecordOf(Projected(All), fields, row, c, fid)) == RecordOf(WithoutGeometry, fields, row, c, fid)
  {
    var left, right := WithEmptyGeometry(fields, All, RecordOf(Projected(All), fields, row, c, fid)), RecordOf(WithoutGeometry, fields, row, c, fid);
    forall i | 0 <= i < |fields|
      ensures left.values[i] == right.values[i]
    {
      FullValues(fields, c.layout.slots, row, fid, i);
    }
    assert left.values == right.values;
  }

  /** Two runs over the fields of a row without bytes that agree up to the geometry. */
  ghost predicate ZerosAlike(fields: seq<Field>, n: nat, feature: Zero, record: Zero)
    requires n <= |fields|
  {
    && feature.flags == record.flags && feature.bits == record.bits && |feature.values| == |record.values| == n
    && forall i :: 0 <= i < n ==> record.values[i] == if fields[i].kind == Geometry then Text([]) else feature.values[i]
  }

  lemma {:induction false} ZeroFieldAlike(fields: seq<Field>, fid: uint32, n: nat, feature: Zero, record: Zero)
    requires n < |fields| && ZerosAlike(fields, n, feature, record)
    requires fields[n].nullable ==> feature.bits / 8 < |feature.flags|
    ensures var f, r := ZeroField(Projected(All), fields[n], fid, feature), ZeroField(WithoutGeometry, fields[n], fid, record);
      && (f.Some? <==> r.Some? && (fields[n].kind == Geometry ==> fields[n].nullable))
      && (f.Some? ==> ZerosAlike(fields, n + 1, f.value, r.value))
  {
  }

  /** Without bytes a feature asks more than a record: the geometry's field must be nullable too. */
  lemma {:induction false} ZeroAlike(fields: seq<Field>, fid: uint32, n: nat)
    requires n <= |fields|
    ensures var feature, record := ZeroUpTo(Projected(All), fields, fid, n), ZeroUpTo(WithoutGeometry, fields, fid, n);
      && (feature.Some? <==> record.Some? && forall i :: 0 <= i < n && fields[i].kind == Geometry ==> fields[i].nullable)
      && (feature.Some? ==> ZerosAlike(fields, n, feature.value, record.value))
    decreases n
  {
    if n == 0 {
    } else {
      ZeroAlike(fields, fid, n - 1);
      var feature, record := ZeroUpTo(Projected(All), fields, fid, n - 1), ZeroUpTo(WithoutGeometry, fields, fid, n - 1);
      if feature.Some? {
        if fields[n - 1].nullable {
          NextFlagFits(fields, n - 1);
        }
        ZeroFieldAlike(fields, fid, n - 1, feature.value, record.value);
      }
    }
  }

  /** The geometry of a row can be handed out: there is none, it is null, or it decodes. */
  predicate GeometryUsable(fields: seq<Field>, row: seq<byte>, decode: seq<byte> -> GeometryValue) {
    if row == [] then forall i :: 0 <= i < |fields| && fields[i].kind == Geometry ==> fields[i].nullable
    else
      match Best(ByReader(All), fields, row)
      case None => true
      case Some(c) =>
        |c.layout.slots| == |fields|
        && WithGeometry(fields, row, Record(0, 0, [], [], []), MetUpTo(fields, c.layout.slots, |fields|), decode).Complete?
  }

  /**
   * With at most one geometry field, the whole feature is read exactly when the record is read and the
   * geometry can be handed out, and the two records are one and the same.
   */
  lemma {:induction false} FeatureIsRecord(fields: seq<Field>, row: seq<byte>, fid: uint32, decode: seq<byte> -> GeometryValue,
                                           was: Record, wasGeometry: GeometryValue)
    requires OneGeometry(fields)
    ensures var f := PublicRead(fields, row, fid, All, decode, was, wasGeometry);
      && (f.ok <==> RowRead(WithoutGeometry, fields, row, fid).Some? && GeometryUsable(fields, row, decode))
      && (f.ok ==> RowRead(WithoutGeometry, fields, row, fid) == Some(f.record))
  {
    if row == [] {
      ZeroFeatureIsRecord(fields, fid, decode, was, wasGeometry);
    } else {
      var best := Best(ByReader(All), fields, row);
      if best.Some? && |best.value.layout.slots| == |fields| && best.value.bytes <= |row| {
        FullRecord(fields, row, best.value, fid);
      }
    }
  }

  lemma {:induction false} ZeroFeatureIsRecord(fields: seq<Field>, fid: uint32, decode: seq<byte> -> GeometryValue,
                                               was: Record, wasGeometry: GeometryValue)
    requires OneGeometry(fields)
    ensures var f := PublicRead(fields, [], fid, All, decode, was, wasGeometry);
      && (f.ok <==> RowRead(WithoutGeometry, fields, [], fid).Some? && GeometryUsable(fields, [], decode))
      && (f.ok ==> RowRead(WithoutGeometry, fields, [], fid) == Some(f.record))
  {
    ZeroAlike(fields, fid, |fields|);
    var f := PublicRead(fields, [], fid, All, decode, was, wasGeometry);
    if f.ok {
      var record := RowRead(WithoutGeometry, fields, [], fid).value;
      assert f.record.values == record.values;
    }
  }

  // ---- The geometry a scan hands out is the geometry a feature decodes --------------------------------

  lemma {:induction false} MetOnly(fields: seq<Field>, slots: seq<Slot>, g: nat, n: nat)
    requires n <= |slots| == |fields| && g < |fields|
    requires forall i :: 0 <= i < |fields| ==> (fields[i].kind == Geometry <==> i == g)
    ensures var unmet := GeometrySlice(false, false, 0, 0, 0);
      MetUpTo(fields, slots, n) == if n <= g then unmet else MeetGeometry(unmet, g, Geometry, slots[g])
  {
    if n == 0 {
    } else {
      MetOnly(fields, slots, g, n - 1);
    }
  }

  /** What the feature makes of the geometry a scan calls back with. */
  function FromCall(record: Record, call: Scan.Call, decode: seq<byte> -> GeometryValue): Outcome {
    if call.geometry.None? then Complete(record, NullGeometry)
    else
      var decoded := decode(call.geometry.value);
      if decoded.Decoded? && decoded.usable then Complete(record, decoded) else BadGeometry(decoded)
  }

  lemma {:induction false} SliceIsCall(fields: seq<Field>, g: nat, slot: Slot, row: seq<byte>, record: Record, fid: uint32,
                                       decode: seq<byte> -> GeometryValue)
    requires g < |fields| && GeometryField(fields, 0) == Some(g)
    requires slot.Null? || (slot.At? && slot.start + slot.size <= |row|)
    ensures WithGeometry(fields, row, record, MeetGeometry(GeometrySlice(false, false, 0, 0, 0), g, Geometry, slot), decode)
         == FromCall(record, Scan.CallFor(fid, slot, row), decode)
  {
  }

  /** The feature's geometry is decoded from the bytes the scan hands out, or both refuse the row. */
  ghost predicate DecodedAsScanned(fields: seq<Field>, g: nat, row: seq<byte>, fid: uint32, p: Projection, decode: seq<byte> -> GeometryValue) {
    var record := RowRead(Projected(p), fields, row, fid);
    && (record.Some? <==> Best(ByPointer, fields, row).Some?)
    && FeatureOutcome(fields, row, fid, p, decode)
       == Took(if record.Some? then FromCall(record.value, Scan.CallOf(fields, g, fid, row), decode) else Failed)
  }

  /**
   * Under any projection a feature is read in the scan's layout, and its geometry decoded from the scan's
   * bytes, exactly unless a layout that fits only by stepping back overtakes the scan's, or a visited one is
   * left undefined.
   */
  lemma {:induction false} FeatureDecodesScannedBytes(fields: seq<Field>, g: nat, row: seq<byte>, fid: uint32, p: Projection,
                                                      decode: seq<byte> -> GeometryValue)
    requires g < |fields| && forall i :: 0 <= i < |fields| ==> (fields[i].kind == Geometry <==> i == g)
    requires 0 < |row| < TWO_32
    ensures Best(ByReader(p), fields, row) == Best(ByPointer, fields, row) && DecodedAsScanned(fields, g, row, fid, p, decode)
       <==> !Overtaken(ByReader(p), ByPointer, fields, row) && !UnclearRow(ByReader(p), fields, row)
  {
    ReaderAgrees(ByReader(p), fields, row);
    BestIsFirstLeast(ByPointer, fields, row);
    var best := Best(ByPointer, fields, row);
    if best.Some? && Best(ByReader(p), fields, row) == best {
      var c := best.value;
      GeometrySlotInRow(fields, row, c.bytes, c.present, g);
      MetOnly(fields, c.layout.slots, g, |fields|);
      SliceIsCall(fields, g, c.layout.slots[g], row, RecordOf(Projected(p), fields, row, c, fid), fid, decode);
    }
  }

  lemma {:induction false} GeometrySlotInRow(fields: seq<Field>, row: seq<byte>, bytes: nat, present: nat, g: nat)
    requires bytes <= |row| && g < |fields| && fields[g].kind == Geometry
    requires Fit(ByPointer, fields, row, bytes, present).Some?
    ensures var slot := Fit(ByPointer, fields, row, bytes, present).value.slots[g];
      slot.Null? || (slot.At? && slot.start + slot.size <= |row|)
  {
    SlotsInOrder(fields, row, bytes, present, |fields|, g, |fields|);
  }
}
