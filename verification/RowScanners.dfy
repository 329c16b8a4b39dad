/**
 * The searches over a row's bytes in place: locating the geometry, filling field references for a set
 * of candidates, and the one written into the sequential scan.  Each has its own loops and early exits
 * and comes to the layout of `RowLayout.Best`.
 */
module RowScanners {
  import opened Bytes
  import opened Varint
  import opened RowLayout
  import Pointers = BinaryReader

  method AllZero(row: seq<byte>, cursor: nat) returns (zero: bool)
    requires cursor <= |row|
    ensures zero <==> ZeroFrom(row, cursor)
  {
    var at := cursor;
    while at < |row|
      invariant cursor <= at <= |row|
      invariant forall i :: cursor <= i < at ==> row[i] == 0
    {
      if row[at] != 0 {
        return false;
      }
      at := at + 1;
    }
    zero := true;
  }

  /** A value as a pointer into the row, null pointer and all. */
  function Pointed(start: Option<nat>, size: nat): Slot {
    if start.Some? then At(start.value, size) else Implied
  }

  method SkipPrefixed(ghost index: nat, kind: FieldType, row: seq<byte>, cursor: nat) returns (ok: bool, next: nat, size: nat)
    requires cursor <= |row| && Prefixed(kind)
    ensures ok ==> size <= next <= |row| && ReadSlot(ByPointer, index, kind, row, cursor) == Some(Placed(At(next - size, size), next))
    ensures !ok ==> ReadSlot(ByPointer, index, kind, row, cursor).None?
  {
    var value: uint64;
    ok, value, next := Pointers.ReadVaruintChecked(row, cursor, |row|);
    assert row[cursor..|row|] == row[cursor..];
    if !ok || value > |row| - next {
      return false, next, 0;
    }
    next, size := next + value, value;
  }

  method SkipValue(ghost index: nat, kind: FieldType, row: seq<byte>, cursor: nat) returns (ok: bool, next: nat, start: Option<nat>, size: nat)
    requires cursor <= |row|
    ensures ok ==> ReadSlot(ByPointer, index, kind, row, cursor) == Some(Placed(Pointed(start, size), next)) && next <= |row|
    ensures !ok ==> ReadSlot(ByPointer, index, kind, row, cursor).None?
  {
    ok, next, start, size := true, cursor, None, 0;
    if kind == ObjectId {
      return;
    }
    var width := FixedWidth(kind);
    if width == 0 {
      ok, next, size := SkipPrefixed(index, kind, row, cursor);
      start := if ok then Some(next - size) else None;
    } else if width > |row| - cursor {
      ok := false;
    } else {
      start, size, next := Some(cursor), width, cursor + width;
    }
  }

  /** null_bit: without a bitmap everything nullable is null. */
  predicate NullAt(row: seq<byte>, bytes: nat, present: nat, k: nat)
    requires bytes <= |row|
    ensures NullAt(row, bytes, present, k) == NullBit(row, bytes, present, k)
  {
    if k >= present then true
    else if bytes == 0 || k / 8 >= bytes then true
    else Bit(row[k / 8], k % 8)
  }

  /** The loop's own record of the best layout so far. */
  predicate Follows(row: seq<byte>, best: Option<Choice>, accepted: bool, padding: nat) {
    && (accepted <==> best.Some?)
    && if best.Some? then padding == |row| - best.value.layout.end else padding > |row|
  }

  // ---- The geometry alone ----------------------------------------------------------------------------

  /** accepted, the pointer and size, and the null flag. */
  datatype GeometryLocation = GeometryLocation(accepted: bool, geometry: Option<nat>, size: nat, isNull: bool)

  function LocatedSlot(g: GeometryLocation): Slot {
    if g.isNull then Null else Pointed(g.geometry, g.size)
  }

  predicate Located(fields: seq<Field>, wanted: nat, c: Choice, result: GeometryLocation) {
    |c.layout.slots| == |fields| && wanted < |fields| && LocatedSlot(result) == c.layout.slots[wanted]
  }

  method LocateUnder(fields: seq<Field>, wanted: nat, row: seq<byte>, bytes: nat, present: nat)
    returns (valid: bool, cursor: nat, found: GeometryLocation)
    requires wanted < |fields| && bytes <= |row|
    ensures valid <==> Place(ByPointer, fields, row, bytes, present, |fields|).Some?
    ensures valid ==> (
      var l := Place(ByPointer, fields, row, bytes, present, |fields|).value;
      cursor == l.end && found.accepted && LocatedSlot(found) == l.slots[wanted])
  {
    cursor := bytes;
    found := GeometryLocation(true, None, 0, true);
    var bit := 0;
    for i := 0 to |fields|
      invariant Place(ByPointer, fields, row, bytes, present, i).Some?
      invariant cursor == Place(ByPointer, fields, row, bytes, present, i).value.end
      invariant bit == Place(ByPointer, fields, row, bytes, present, i).value.bits
      invariant found.accepted && (i <= wanted ==> found.isNull)
      invariant i > wanted ==> LocatedSlot(found) == Place(ByPointer, fields, row, bytes, present, i).value.slots[wanted]
    {
      var isNull := false;
      if fields[i].nullable {
        isNull := NullAt(row, bytes, present, bit);
        bit := bit + 1;
      }
      if isNull {
        if i == wanted {
          found := found.(isNull := true);
        }
        continue;
      }
      var ok, next, start, size := SkipValue(i, fields[i].kind, row, cursor);
      if !ok {
        PlaceStuck(ByPointer, fields, row, bytes, present, i + 1, |fields|);
        valid := false;
        return;
      }
      cursor := next;
      if i == wanted {
        found := GeometryLocation(true, start, size, false);
      }
    }
    valid := true;
  }

  method LocateGeometry(fields: seq<Field>, wanted: nat, row: seq<byte>) returns (result: GeometryLocation)
    requires wanted < |fields|
    ensures result.accepted <==> Best(ByPointer, fields, row).Some?
    ensures result.accepted ==> Located(fields, wanted, Best(ByPointer, fields, row).value, result)
  {
    result := GeometryLocation(false, None, 0, true);
    var bytes: nat, bestPadding: nat := BitmapBytes(Nullables(fields)), |row| + 1;
    ghost var best: Option<Choice> := None;
    while true
      invariant OverBytes(ByPointer, fields, row, bytes, best) == Best(ByPointer, fields, row)
      invariant Follows(row, best, result.accepted, bestPadding)
      invariant best.Some? ==> Located(fields, wanted, best.value, result)
      decreases bytes
    {
      if bytes <= |row| {
        ghost var target := OverBits(ByPointer, fields, row, bytes, MostBits(Nullables(fields), bytes), best);
        var present: int := MostBits(Nullables(fields), bytes);
        while present >= 0
          invariant OverBits(ByPointer, fields, row, bytes, present, best) == target
          invariant Follows(row, best, result.accepted, bestPadding)
          invariant best.Some? ==> Located(fields, wanted, best.value, result)
        {
          var valid, cursor, found := LocateUnder(fields, wanted, row, bytes, present);
          best := Better(best, bytes, present, Fit(ByPointer, fields, row, bytes, present));
          present := present - 1;
          if !valid {
            continue;
          }
          var padding := |row| - cursor;
          var zero := AllZero(row, cursor);
          if !zero || padding >= bestPadding {
            continue;
          }
          result := found;
          bestPadding := padding;
          if padding == 0 {
            ExactStopsBits(ByPointer, fields, row, bytes, present, best);
            break;
          }
        }
        assert best == target;
      }
      if result.accepted && bestPadding == 0 {
        ExactStopsBytes(ByPointer, fields, row, bytes - 1, best);
        break;
      }
      if bytes == 0 {
        break;
      }
      bytes := bytes - 1;
    }
  }

  // ---- References to every field ---------------------------------------------------------------------

  datatype FieldRef = FieldRef(kind: FieldType, data: Option<nat>, size: nat, isNull: bool, implied: int)

  /** fid + 1 in 32 bits, read as a signed number. */
  function ImpliedId(fid: uint32): int {
    var id := (fid + 1) % TWO_32;
    if id < TWO_32 / 2 then id else id - TWO_32
  }

  /** A raster value is skipped and reported null. */
  function RefOf(kind: FieldType, slot: Slot, fid: uint32): FieldRef {
    match slot
    case Null => FieldRef(kind, None, 0, true, ImpliedId(fid))
    case Implied => FieldRef(kind, None, 0, false, ImpliedId(fid))
    case At(start, size) =>
      if kind == Raster then FieldRef(kind, None, 0, true, ImpliedId(fid))
      else FieldRef(kind, Some(start), size, false, ImpliedId(fid))
  }

  function Refs(fields: seq<Field>, slots: seq<Slot>, fid: uint32): (r: seq<FieldRef>)
    requires |slots| == |fields|
    ensures |r| == |fields|
  {
    seq(|fields|, i requires 0 <= i < |fields| => RefOf(fields[i].kind, slots[i], fid))
  }

  /** The references of the fields placed so far. */
  predicate RefsSoFar(fields: seq<Field>, slots: seq<Slot>, fid: uint32, refs: seq<FieldRef>) {
    && |slots| <= |fields| == |refs|
    && forall k :: 0 <= k < |slots| ==> refs[k] == RefOf(fields[k].kind, slots[k], fid)
  }

  lemma {:induction false} OneMoreRef(fields: seq<Field>, slots: seq<Slot>, slot: Slot, fid: uint32, refs: seq<FieldRef>)
    requires RefsSoFar(fields, slots, fid, refs) && |slots| < |fields|
    ensures RefsSoFar(fields, slots + [slot], fid, refs[|slots| := RefOf(fields[|slots|].kind, slot, fid)])
  {
  }

  predicate Referred(fields: seq<Field>, c: Choice, fid: uint32, refs: seq<FieldRef>) {
    |c.layout.slots| == |fields| && refs == Refs(fields, c.layout.slots, fid)
  }

  method SetFixedFieldRef(ghost index: nat, row: seq<byte>, cursor: nat, kind: FieldType, ref: FieldRef)
    returns (ok: bool, next: nat, filled: FieldRef)
    requires cursor <= |row| && (kind == ObjectId || FixedWidth(kind) != 0) && ref.kind == kind && !ref.isNull
    ensures ok <==> ReadSlot(ByPointer, index, kind, row, cursor).Some?
    ensures ok ==> (
      var p := ReadSlot(ByPointer, index, kind, row, cursor).value;
      next == p.end && filled.(implied := 0) == RefOf(kind, p.slot, 0).(implied := 0) && filled.implied == ref.implied)
  {
    next := cursor;
    if kind == ObjectId {
      return true, next, ref.(data := None, size := 0);
    }
    var width := FixedWidth(kind);
    if width == 0 || width > |row| - cursor {
      return false, next, ref;
    }
    return true, cursor + width, ref.(data := Some(cursor), size := width);
  }

  /** The reference of a field that is not null. */
  method FillRef(ghost index: nat, row: seq<byte>, cursor: nat, kind: FieldType, fid: uint32)
    returns (ok: bool, next: nat, filled: FieldRef)
    requires cursor <= |row|
    ensures ok <==> ReadSlot(ByPointer, index, kind, row, cursor).Some?
    ensures ok ==> (
      var p := ReadSlot(ByPointer, index, kind, row, cursor).value;
      next == p.end && filled == RefOf(kind, p.slot, fid))
  {
    filled := FieldRef(kind, None, 0, false, ImpliedId(fid));
    if kind == ObjectId || FixedWidth(kind) != 0 {
      ok, next, filled := SetFixedFieldRef(index, row, cursor, kind, filled);
      return;
    }
    var size: uint64;
    ok, size, next := Pointers.ReadVaruintChecked(row, cursor, |row|);
    assert row[cursor..|row|] == row[cursor..];
    if !ok || size > |row| - next {
      ok := false;
      return;
    }
    if kind == Raster {
      filled := filled.(isNull := true);
    } else {
      filled := filled.(data := Some(next), size := size);
    }
    next := next + size;
  }

  function Resized(refs: seq<FieldRef>, count: nat): (r: seq<FieldRef>)
    ensures |r| == count
  {
    if count <= |refs| then refs[..count]
    else refs + seq(count - |refs|, _ => FieldRef(ObjectId, None, 0, false, 0))
  }

  /** The two lists a candidate scan keeps from row to row. */
  class RowRefs {
    var output: seq<FieldRef>
    var scratch: seq<FieldRef>

    constructor ()
    {
      output, scratch := [], [];
    }

    method Resize(count: nat)
      modifies this
      ensures |output| == |scratch| == count
      ensures |old(output)| == count ==> output == old(output)
    {
      if |output| != count {
        output := Resized(output, count);
      }
      if |scratch| != count {
        scratch := Resized(scratch, count);
      }
    }

    method FillScratch(fields: seq<Field>, row: seq<byte>, bytes: nat, present: nat, fid: uint32)
      returns (valid: bool, cursor: nat)
      requires bytes <= |row| && |scratch| == |fields|
      modifies this`scratch
      ensures |scratch| == |fields|
      ensures valid <==> Place(ByPointer, fields, row, bytes, present, |fields|).Some?
      ensures valid ==> (
        var l := Place(ByPointer, fields, row, bytes, present, |fields|).value;
        cursor == l.end && scratch == Refs(fields, l.slots, fid))
    {
      cursor := bytes;
      var bit := 0;
      for i := 0 to |fields|
        invariant |scratch| == |fields|
        invariant Place(ByPointer, fields, row, bytes, present, i).Some?
        invariant cursor == Place(ByPointer, fields, row, bytes, present, i).value.end
        invariant bit == Place(ByPointer, fields, row, bytes, present, i).value.bits
        invariant RefsSoFar(fields, Place(ByPointer, fields, row, bytes, present, i).value.slots, fid, scratch)
      {
        ghost var l := Place(ByPointer, fields, row, bytes, present, i).value;
        var isNull := false;
        if fields[i].nullable {
          isNull := NullAt(row, bytes, present, bit);
          bit := bit + 1;
        }
        if isNull {
          OneMoreRef(fields, l.slots, Null, fid, scratch);
          scratch := scratch[i := FieldRef(fields[i].kind, None, 0, true, ImpliedId(fid))];
          continue;
        }
        var ok, next, filled := FillRef(i, row, cursor, fields[i].kind, fid);
        if !ok {
          PlaceStuck(ByPointer, fields, row, bytes, present, i + 1, |fields|);
          valid := false;
          return;
        }
        OneMoreRef(fields, l.slots, ReadSlot(ByPointer, i, fields[i].kind, row, cursor).value.slot, fid, scratch);
        cursor := next;
        scratch := scratch[i := filled];
      }
      valid := true;
    }

    /** A row without bytes is a row of nulls. */
    method ParseRowRefs(fields: seq<Field>, row: seq<byte>, fid: uint32) returns (accepted: bool)
      modifies this
      ensures |output| == |fields|
      ensures row == [] ==> accepted && output == Refs(fields, seq(|fields|, _ => Null), fid)
      ensures row != [] ==> (accepted <==> Best(ByPointer, fields, row).Some?)
      ensures row != [] && accepted ==> Referred(fields, Best(ByPointer, fields, row).value, fid, output)
      ensures !accepted && |old(output)| == |fields| ==> output == old(output)
    {
      Resize(|fields|);
      if row == [] {
        output := seq(|fields|, i requires 0 <= i < |fields| => FieldRef(fields[i].kind, None, 0, true, ImpliedId(fid)));
        return true;
      }
      accepted := Search(fields, row, fid);
    }

    method Search(fields: seq<Field>, row: seq<byte>, fid: uint32) returns (accepted: bool)
      requires |output| == |scratch| == |fields|
      modifies this
      ensures |output| == |fields|
      ensures accepted <==> Best(ByPointer, fields, row).Some?
      ensures accepted ==> Referred(fields, Best(ByPointer, fields, row).value, fid, output)
      ensures !accepted ==> output == old(output)
    {
      accepted := false;
      var bytes: nat, bestPadding: nat := BitmapBytes(Nullables(fields)), |row| + 1;
      ghost var best: Option<Choice> := None;
      while true
        invariant |output| == |scratch| == |fields|
        invariant OverBytes(ByPointer, fields, row, bytes, best) == Best(ByPointer, fields, row)
        invariant Follows(row, best, accepted, bestPadding)
        invariant if best.Some? then Referred(fields, best.value, fid, output) else output == old(output)
        decreases bytes
      {
        if bytes <= |row| {
          ghost var target := OverBits(ByPointer, fields, row, bytes, MostBits(Nullables(fields), bytes), best);
          var present: int := MostBits(Nullables(fields), bytes);
          while present >= 0
            invariant |output| == |scratch| == |fields|
            invariant OverBits(ByPointer, fields, row, bytes, present, best) == target
            invariant Follows(row, best, accepted, bestPadding)
            invariant if best.Some? then Referred(fields, best.value, fid, output) else output == old(output)
          {
            var valid, cursor := FillScratch(fields, row, bytes, present, fid);
            best := Better(best, bytes, present, Fit(ByPointer, fields, row, bytes, present));
            present := present - 1;
            if !valid {
              continue;
            }
            var padding := |row| - cursor;
            var zero := AllZero(row, cursor);
            if !zero || padding >= bestPadding {
              continue;
            }
            bestPadding := padding;
            output := scratch;
            accepted := true;
            if padding == 0 {
              ExactStopsBits(ByPointer, fields, row, bytes, present, best);
              break;
            }
          }
          assert best == target;
        }
        if accepted && bestPadding == 0 {
          ExactStopsBytes(ByPointer, fields, row, bytes - 1, best);
          break;
        }
        if bytes == 0 {
          break;
        }
        bytes := bytes - 1;
      }
    }
  }

  // ---- The sequential scan ---------------------------------------------------------------------------

  /** Its null test trusts that a present bit has a byte. */
  predicate PresentAndSet(row: seq<byte>, bytes: nat, present: nat, k: nat)
    requires bytes <= |row| && present <= 8 * bytes
    ensures PresentAndSet(row, bytes, present, k) == NullBit(row, bytes, present, k)
  {
    k >= present || (bytes > 0 && Bit(row[k / 8], k % 8))
  }

  method ScanUnder(fields: seq<Field>, row: seq<byte>, bytes: nat, present: nat, fid: uint32, was: seq<FieldRef>)
    returns (valid: bool, cursor: nat, refs: seq<FieldRef>)
    requires bytes <= |row| && present <= 8 * bytes && |was| == |fields|
    ensures |refs| == |fields|
    ensures valid <==> Place(ByPointer, fields, row, bytes, present, |fields|).Some?
    ensures valid ==> (
      var l := Place(ByPointer, fields, row, bytes, present, |fields|).value;
      cursor == l.end && refs == Refs(fields, l.slots, fid))
  {
    refs := was;
    cursor := bytes;
    var bit := 0;
    for i := 0 to |fields|
      invariant |refs| == |fields|
      invariant Place(ByPointer, fields, row, bytes, present, i).Some?
      invariant cursor == Place(ByPointer, fields, row, bytes, present, i).value.end
      invariant bit == Place(ByPointer, fields, row, bytes, present, i).value.bits
      invariant RefsSoFar(fields, Place(ByPointer, fields, row, bytes, present, i).value.slots, fid, refs)
    {
      ghost var l := Place(ByPointer, fields, row, bytes, present, i).value;
      var isNull := false;
      if fields[i].nullable {
        isNull := PresentAndSet(row, bytes, present, bit);
        bit := bit + 1;
      }
      if isNull {
        OneMoreRef(fields, l.slots, Null, fid, refs);
        refs := refs[i := FieldRef(fields[i].kind, None, 0, true, ImpliedId(fid))];
        continue;
      }
      var ok, next, filled := FillRef(i, row, cursor, fields[i].kind, fid);
      if !ok {
        PlaceStuck(ByPointer, fields, row, bytes, present, i + 1, |fields|);
        valid := false;
        return;
      }
      OneMoreRef(fields, l.slots, ReadSlot(ByPointer, i, fields[i].kind, row, cursor).value.slot, fid, refs);
      cursor := next;
      refs := refs[i := filled];
    }
    valid := true;
  }

  /**
   * What the sequential scan hands to its callback for one row.  Unlike the candidate scan it reports a
   * row that no layout fits, and gives a row without bytes the implied value 0.
   */
  method ScanRow(fields: seq<Field>, row: seq<byte>, fid: uint32, was: seq<FieldRef>) returns (accepted: bool, refs: seq<FieldRef>)
    requires |was| == |fields|
    ensures |refs| == |fields|
    ensures row == [] ==>
      refs == seq(|fields|, i requires 0 <= i < |fields| => FieldRef(fields[i].kind, None, 0, true, 0))
    ensures row != [] ==> (accepted <==> Best(ByPointer, fields, row).Some?)
    ensures row != [] && accepted ==> Referred(fields, Best(ByPointer, fields, row).value, fid, refs)
    ensures !accepted ==> forall i :: 0 <= i < |refs| ==> refs[i].isNull || refs[i].data.Some? || refs[i].kind == ObjectId
  {
    if row == [] {
      return true, seq(|fields|, i requires 0 <= i < |fields| => FieldRef(fields[i].kind, None, 0, true, 0));
    }
    accepted, refs := ScanSearch(fields, row, fid, was);
    if !accepted {
      for i := 0 to |refs|
        invariant |refs| == |fields|
        invariant forall k :: 0 <= k < i ==> refs[k].isNull || refs[k].data.Some? || refs[k].kind == ObjectId
      {
        if !refs[i].isNull && refs[i].data.None? && refs[i].kind != ObjectId {
          refs := refs[i := refs[i].(isNull := true)];
        }
      }
    }
  }

  method ScanSearch(fields: seq<Field>, row: seq<byte>, fid: uint32, was: seq<FieldRef>) returns (accepted: bool, refs: seq<FieldRef>)
    requires |was| == |fields|
    ensures |refs| == |fields|
    ensures accepted <==> Best(ByPointer, fields, row).Some?
    ensures accepted ==> Referred(fields, Best(ByPointer, fields, row).value, fid, refs)
  {
    refs := was;
    accepted := false;
    var bytes: nat, bestPadding: nat := BitmapBytes(Nullables(fields)), |row| + 1;
    var bestRefs := was;
    ghost var best: Option<Choice> := None;
    while true
      invariant |refs| == |fields| && bytes >= 0
      invariant OverBytes(ByPointer, fields, row, bytes, best) == Best(ByPointer, fields, row)
      invariant Follows(row, best, accepted, bestPadding)
      invariant best.Some? ==> Referred(fields, best.value, fid, bestRefs)
      decreases bytes
    {
      if bytes > |row| {
        bytes := bytes - 1;
        continue;
      }
      ghost var target := OverBits(ByPointer, fields, row, bytes, MostBits(Nullables(fields), bytes), best);
      var present: int := MostBits(Nullables(fields), bytes);
      while present >= 0
        invariant |refs| == |fields| && present <= 8 * bytes
        invariant OverBits(ByPointer, fields, row, bytes, present, best) == target
        invariant Follows(row, best, accepted, bestPadding)
        invariant best.Some? ==> Referred(fields, best.value, fid, bestRefs)
      {
        var valid, cursor;
        valid, cursor, refs := ScanUnder(fields, row, bytes, present, fid, refs);
        best := Better(best, bytes, present, Fit(ByPointer, fields, row, bytes, present));
        present := present - 1;
        if valid {
          var padding := |row| - cursor;
          var zero := AllZero(row, cursor);
          if zero && padding < bestPadding {
            bestPadding := padding;
            bestRefs := refs;
            accepted := true;
            if padding == 0 {
              ExactStopsBits(ByPointer, fields, row, bytes, present, best);
              break;
            }
          }
        }
      }
      assert best == target;
      if accepted && bestPadding == 0 {
        ExactStopsBytes(ByPointer, fields, row, bytes - 1, best);
        break;
      }
      if bytes == 0 {
        break;
      }
      bytes := bytes - 1;
    }
    if accepted {
      refs := bestRefs;
    }
  }
}
