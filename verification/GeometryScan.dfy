/**
 * Handing out the geometry of every row: over a map of the file, in batches read from it, and for chosen
 * candidates in physical order.
 */
module GeometryScan {
  import opened Bytes
  import opened RowLayout
  import opened Delivery
  import Scanners = RowScanners

  /** One callback: the FID, the geometry's bytes behind the pointer, and the null flag. */
  datatype Call = Call(fid: uint32, geometry: Option<seq<byte>>, isNull: bool)

  function CallFor(fid: uint32, slot: Slot, row: seq<byte>): Call {
    match slot
    case Null => Call(fid, None, true)
    case Implied => Call(fid, None, false)
    case At(start, size) => Call(fid, Some(Slice(row, start, size)), false)
  }

  /** A row without bytes, or that no layout fits, counts as a null geometry. */
  function CallOf(fields: seq<Field>, wanted: nat, fid: uint32, row: seq<byte>): Call {
    if row == [] then Call(fid, None, true)
    else
      match Best(ByPointer, fields, row)
      case None => Call(fid, None, true)
      case Some(c) => if wanted < |c.layout.slots| then CallFor(fid, c.layout.slots[wanted], row) else Call(fid, None, true)
  }

  /** A geometry is called null exactly where the row has no bytes, fits no layout or has its null bit set; what is null has no bytes. */
  lemma NullIsSaid(fields: seq<Field>, wanted: nat, fid: uint32, row: seq<byte>)
    requires wanted < |fields|
    ensures var call, best := CallOf(fields, wanted, fid, row), Best(ByPointer, fields, row);
      && call.fid == fid && (call.isNull ==> call.geometry.None?)
      && (call.isNull <==> row == [] || best.None? || (|best.value.layout.slots| == |fields| && best.value.layout.slots[wanted].Null?))
  {
    BestIsFirstLeast(ByPointer, fields, row);
  }

  function RenderOf(fields: seq<Field>, wanted: nat): Render<Call> {
    (fid: uint32, row: seq<byte>) => Some(CallOf(fields, wanted, fid, row))
  }

  lemma {:induction false} NeverUnreadable(file: seq<byte>, fields: seq<Field>, wanted: nat, callback: Callback<Call>, rows: seq<RowRef>)
    ensures Deliver(file, RenderOf(fields, wanted), callback, rows).ended != Unreadable
  {
    if rows == [] {
    } else {
      NeverUnreadable(file, fields, wanted, callback, rows[..|rows| - 1]);
    }
  }

  /** The rows from the done-th on are those of the batch. */
  predicate EndsWithBatch(rows: seq<RowRef>, done: nat, b: Batch) {
    |rows| == done + |b.rows| && forall i :: 0 <= i < |b.rows| ==> RowOfBatch(rows, done, b, i)
  }

  predicate RowOfBatch(rows: seq<RowRef>, done: nat, b: Batch, i: nat) {
    i < |b.rows| && done + i < |rows| && rows[done + i] == b.rows[i]
  }

  class GeometryScanner {
    const fields: seq<Field>
    const wanted: nat
    const file: seq<byte>
    const offsets: seq<uint64>
    const callback: Callback<Call>
    var calls: seq<Call>
    var scanned: nat

    constructor (fields: seq<Field>, wanted: nat, file: seq<byte>, offsets: seq<uint64>, callback: Callback<Call>)
      requires |offsets| <= TWO_32 && |file| < TWO_64
      ensures this.fields == fields && this.wanted == wanted && this.file == file && this.offsets == offsets
      ensures Ready()
    {
      this.fields, this.wanted, this.file, this.offsets, this.callback := fields, wanted, file, offsets, callback;
      calls, scanned := [], 0;
    }

    predicate Valid() {
      |offsets| <= TWO_32 && |file| < TWO_64
    }

    predicate Ready()
      reads this
    {
      Valid() && calls == [] && scanned == 0
    }

    /** The calls so far are those of the rows so far, and all said go on. */
    ghost predicate Delivers(rows: seq<RowRef>)
      reads this
    {
      Delivery.Deliver(file, RenderOf(fields, wanted), callback, rows) == Delivered(calls, Ran) && scanned == |calls|
    }

    /** The first n of the rows are delivered. */
    ghost predicate DeliversFirst(rows: seq<RowRef>, n: nat)
      reads this
    {
      n <= |rows| && Delivers(rows[..n])
    }

    /** The calls are those of the rows, which ended so. */
    ghost predicate DeliveredAll(rows: seq<RowRef>, ended: Ended)
      reads this
    {
      && Delivery.Deliver(file, RenderOf(fields, wanted), callback, rows) == Delivered(calls, ended)
      && scanned == Delivery.Scanned(Delivered(calls, ended))
    }

    method EmitRow(fid: uint32, row: seq<byte>) returns (goOn: bool)
      requires wanted < |fields|
      modifies this
      ensures var call := CallOf(fields, wanted, fid, row);
        calls == old(calls) + [call] && goOn == callback(old(calls), call)
      ensures scanned == if goOn then old(scanned) + 1 else old(scanned)
    {
      var call := Call(fid, None, true);
      if row != [] {
        var located := Scanners.LocateGeometry(fields, wanted, row);
        if located.accepted {
          var geometry := if located.geometry.Some? then Some(Slice(row, located.geometry.value, located.size)) else None;
          call := Call(fid, if located.isNull then None else geometry, located.isNull);
        }
      }
      goOn := callback(calls, call);
      calls := calls + [call];
      if goOn {
        scanned := scanned + 1;
      }
    }

    /** The next row of a delivery, its bytes at hand. */
    method EmitNext(ghost rows: seq<RowRef>, ghost n: nat, fid: uint32, row: seq<byte>) returns (goOn: bool)
      requires wanted < |fields| && n < |rows| && DeliversFirst(rows, n)
      requires rows[n].fid == fid && HasRecordPrefix(rows[n].offset, |file|)
      requires ValidRecordSize(rows[n].offset, SizeAt(file, rows[n].offset), |file|) && row == RowAt(file, rows[n].offset)
      modifies this
      ensures goOn ==> DeliversFirst(rows, n + 1)
      ensures !goOn ==> DeliveredAll(rows[..n + 1], Stopped)
    {
      goOn := EmitRow(fid, row);
      DeliverNext(file, RenderOf(fields, wanted), callback, rows, n);
    }

    method ScanMapped() returns (count: nat)
      requires Ready()
      modifies this
      ensures if fields == [] || offsets == [] || wanted >= |fields| then calls == [] && count == 0
        else
          var d := Delivery.Deliver(file, RenderOf(fields, wanted), callback, RowsBelow(offsets, |file|, |offsets|));
          calls == d.calls && count == MappedCount(d)
    {
      if fields == [] || offsets == [] || wanted >= |fields| {
        return 0;
      }
      ghost var all, n := RowsBelow(offsets, |file|, |offsets|), 0;
      for fid := 0 to |offsets|
        invariant n == |RowsBelow(offsets, |file|, fid)| && DeliversFirst(all, n)
      {
        var offset := offsets[fid];
        if offset == 0 || offset >= |file| {
          continue;
        }
        NextRowBelow(offsets, |file|, fid, n);
        if !HasRecordPrefix(offset, |file|) || !ValidRecordSize(offset, SizeAt(file, offset), |file|) {
          BadRowEnds(file, RenderOf(fields, wanted), callback, all, n);
          return 0;
        }
        var goOn := EmitNext(all, n, fid, RowAt(file, offset));
        if !goOn {
          DeliverGrows(file, RenderOf(fields, wanted), callback, all, n + 1);
          break;
        }
        n := n + 1;
      }
      assert all[..|all|] == all;
      count := scanned;
    }

    /** pread within the file; reading no bytes is not a batch. */
    method ReadAt(offset: nat, size: nat) returns (ok: bool, bytes: seq<byte>)
      ensures ok <==> offset + size <= |file|
      ensures ok ==> bytes == file[offset..offset + size]
    {
      if offset > |file| || size > |file| - offset {
        return false, [];
      }
      return true, file[offset..offset + size];
    }

    /** A row's bytes from the window they begin in, or read on their own where they spill over its end. */
    method RowBytes(b: Batch, bytes: seq<byte>, row: RowRef) returns (ok: bool, content: seq<byte>)
      requires b.offset + b.size <= |file| && bytes == file[b.offset..b.offset + b.size]
      ensures RowPrefixFits(b, row.offset) ==> (
        && HasRecordPrefix(row.offset, |file|)
        && (ok <==> ValidRecordSize(row.offset, SizeAt(file, row.offset), |file|))
        && (ok ==> content == RowAt(file, row.offset)))
    {
      ok, content := false, [];
      if row.offset < b.offset {
        return;
      }
      var local := row.offset - b.offset;
      if local > |bytes| || local + 4 > |bytes| {
        return;
      }
      WindowSize(file, b.offset, b.offset + b.size, row.offset);
      var rowSize := SizeAt(bytes, local);
      if !ValidRecordSize(row.offset, rowSize, |file|) {
        return;
      }
      if rowSize <= |bytes| - local - 4 {
        WindowRow(file, b.offset, b.offset + b.size, row.offset + 4, row.offset + 4 + rowSize);
        return true, bytes[local + 4..local + 4 + rowSize];
      }
      ok, content := ReadAt(row.offset + 4, rowSize);
    }

    /** A batch of rows that lies in the file, with its bytes. */
    predicate BatchRead(b: Batch, bytes: seq<byte>) {
      GoodBatch(b, |file|, b.size) && bytes == file[b.offset..b.offset + b.size]
    }

    /** The i-th row of a batch whose rows are those from the done-th on. */
    method ProcessRow(b: Batch, bytes: seq<byte>, i: nat, ghost all: seq<RowRef>, ghost done: nat, ghost n: nat) returns (ended: Ended)
      requires wanted < |fields| && i < |b.rows| && BatchRead(b, bytes)
      requires EndsWithBatch(all, done, b) && n == done + i && DeliversFirst(all, n)
      modifies this
      ensures if ended == Ran then DeliversFirst(all, n + 1) else DeliveredAll(all, ended)
      ensures ended in {Ran, Stopped, Failed}
    {
      var row := b.rows[i];
      assert RowOfBatch(all, done, b, i) && PrefixInside(b, i);
      var valid, content := RowBytes(b, bytes, row);
      if !valid {
        BadRowEnds(file, RenderOf(fields, wanted), callback, all, n);
        return Failed;
      }
      var goOn := EmitNext(all, n, row.fid, content);
      if !goOn {
        DeliverGrows(file, RenderOf(fields, wanted), callback, all, n + 1);
        return Stopped;
      }
      ended := Ran;
    }

    method ProcessBatch(b: Batch, ghost done: nat, ghost all: seq<RowRef>) returns (ended: Ended)
      requires wanted < |fields| && GoodBatch(b, |file|, b.size)
      requires EndsWithBatch(all, done, b) && DeliversFirst(all, done)
      modifies this
      ensures if ended == Ran then DeliversFirst(all, |all|) else DeliveredAll(all, ended)
      ensures ended in {Ran, Stopped, Failed}
    {
      var ok, bytes := ReadAt(b.offset, b.size);
      assert BatchRead(b, bytes);
      ghost var n := done;
      for i := 0 to |b.rows|
        invariant n == done + i && DeliversFirst(all, n)
      {
        ended := ProcessRow(b, bytes, i, all, done, n);
        if ended != Ran {
          return;
        }
        n := n + 1;
      }
      ended := Ran;
    }

    /** These rows are in batches: the closed ones are delivered, and the open one is current. */
    ghost predicate Batched(seen: seq<RowRef>, current: Batch, limit: nat)
      reads this
    {
      && AllPrefixed(seen, |file|) && current == Current(seen, |file|, limit)
      && DeliversFirst(seen, Flushed(seen, |file|, limit))
    }

    /** The batch being filled, if it has rows. */
    method FinishCurrent(current: Batch, ghost seen: seq<RowRef>, ghost limit: nat) returns (ended: Ended)
      requires wanted < |fields| && limit >= 4 && Batched(seen, current, limit)
      modifies this
      ensures if ended == Ran then DeliversFirst(seen, |seen|) else DeliveredAll(seen, ended)
      ensures ended in {Ran, Stopped, Failed}
    {
      CurrentIsGood(seen, |file|, limit);
      ClosedAndCurrent(seen, |file|, limit);
      FlushedIsBeforeCurrent(seen, |file|, limit);
      if current.rows == [] {
        return Ran;
      }
      ended := ProcessBatch(current, Flushed(seen, |file|, limit), seen);
    }

    /** A row whose prefix is in the file joins the batch, or closes it and begins the next. */
    method AddRow(current: Batch, row: RowRef, ghost seen: seq<RowRef>, limit: nat) returns (ended: Ended, next: Batch)
      requires wanted < |fields| && limit >= 4 && Batched(seen, current, limit) && HasRecordPrefix(row.offset, |file|)
      modifies this
      ensures AllPrefixed(seen + [row], |file|)
      ensures ended == Ran ==> Batched(seen + [row], next, limit)
      ensures ended != Ran ==> DeliveredAll(seen, ended) && Flushed(seen + [row], |file|, limit) == |seen|
      ensures ended in {Ran, Stopped, Failed}
    {
      CurrentNext(seen, row, |file|, limit);
      FlushedNext(seen, row, |file|, limit);
      ended, next := Ran, current;
      if !RowPrefixFits(current, row.offset) {
        ended := FinishCurrent(current, seen, limit);
        if ended != Ran {
          return;
        }
        next := StartBatch(row.offset, |file|, limit);
        assert (seen + [row])[..|seen|] == seen[..|seen|];
      } else {
        assert (seen + [row])[..Flushed(seen, |file|, limit)] == seen[..Flushed(seen, |file|, limit)];
      }
      next := next.(rows := next.rows + [row]);
    }

    /** The scan without a map. */
    method ScanBatched(limit: nat) returns (count: nat)
      requires Ready() && limit >= 4
      modifies this
      ensures if fields == [] || offsets == [] || wanted >= |fields| then calls == [] && count == 0
        else
          var rows := RowsBelow(offsets, |file|, |offsets|);
          && calls == BatchedRun(file, RenderOf(fields, wanted), callback, rows, limit).calls
          && count == BatchedCount(file, RenderOf(fields, wanted), callback, rows, limit)
    {
      if fields == [] || offsets == [] || wanted >= |fields| {
        return 0;
      }
      ghost var all := RowsBelow(offsets, |file|, |offsets|);
      var current := Batch(0, 0, []);
      for fid := 0 to |offsets|
        invariant Batched(RowsBelow(offsets, |file|, fid), current, limit)
      {
        ghost var seen, n := RowsBelow(offsets, |file|, fid), |RowsBelow(offsets, |file|, fid)|;
        var offset := offsets[fid];
        if offset == 0 || offset >= |file| {
          continue;
        }
        var row := RowRef(fid, offset);
        NextRowBelow(offsets, |file|, fid, n);
        if !HasRecordPrefix(offset, |file|) {
          EndedByMissingPrefix(file, RenderOf(fields, wanted), callback, all, n, limit);
          return 0;
        }
        var ended;
        ended, current := AddRow(current, row, seen, limit);
        if ended != Ran {
          EndedEarly(file, RenderOf(fields, wanted), callback, all, n, limit);
          count := if ended == Stopped then scanned else 0;
          return;
        }
      }
      NeverUnreadable(file, fields, wanted, callback, all);
      EndedByLastBatch(file, RenderOf(fields, wanted), callback, all, limit);
      var ended := FinishCurrent(current, all, limit);
      assert all[..|all|] == all;
      count := if ended == Ran then scanned else 0;
    }

    method BuildSparseBatches(rows: seq<RowRef>, limit: nat) returns (batches: seq<Batch>)
      requires AllPrefixed(rows, |file|)
      ensures batches == Batches(rows, |file|, limit)
    {
      batches := [];
      var current := Batch(0, 0, []);
      for i := 0 to |rows|
        invariant batches == Closed(rows[..i], |file|, limit) && current == Current(rows[..i], |file|, limit)
      {
        assert rows[..i + 1][..i] == rows[..i];
        if !RowPrefixFits(current, rows[i].offset) {
          if current.rows != [] {
            batches := batches + [current];
          }
          current := StartBatch(rows[i].offset, |file|, limit);
        }
        current := current.(rows := current.rows + [rows[i]]);
      }
      assert rows[..|rows|] == rows;
      if current.rows != [] {
        batches := batches + [current];
      }
    }

    method CollectRows(candidates: seq<uint32>) returns (ok: bool, rows: seq<RowRef>)
      ensures ok <==> Eligible(candidates, offsets, |file|)
      ensures ok ==> rows == RowsFor(candidates, offsets)
    {
      rows := [];
      for i := 0 to |candidates|
        invariant Eligible(candidates[..i], offsets, |file|) && rows == RowsFor(candidates[..i], offsets)
      {
        if candidates[i] >= |offsets| || offsets[candidates[i]] == 0 || !HasRecordPrefix(offsets[candidates[i]], |file|) {
          return false, rows;
        }
        rows := rows + [RowRef(candidates[i], offsets[candidates[i]])];
      }
      assert candidates[..|candidates|] == candidates;
      ok := true;
    }

    method ProcessBatches(batches: seq<Batch>, limit: nat) returns (ended: Ended)
      requires Ready() && wanted < |fields|
      requires forall i :: 0 <= i < |batches| ==> GoodBatch(batches[i], |file|, limit)
      modifies this
      ensures DeliveredAll(RowsOf(batches), ended) && ended in {Ran, Stopped, Failed}
    {
      assert batches[..0] == [];
      for i := 0 to |batches|
        invariant Delivers(RowsOf(batches[..i]))
      {
        ghost var done := RowsOf(batches[..i]);
        assert GoodBatch(batches[i], |file|, batches[i].size) by { assert GoodBatch(batches[i], |file|, limit); }
        OneMoreBatch(batches[..i], batches[i]);
        assert batches[..i + 1] == batches[..i] + [batches[i]];
        ghost var next := RowsOf(batches[..i + 1]);
        assert next[..|done|] == done && next[|done|..] == batches[i].rows;
        ended := ProcessBatch(batches[i], |done|, next);
        if ended != Ran {
          RowsOfPrefix(batches, i + 1);
          assert RowsOf(batches)[..|next|] == next;
          DeliverGrows(file, RenderOf(fields, wanted), callback, RowsOf(batches), |next|);
          return;
        }
        assert next[..|next|] == next;
      }
      assert batches[..|batches|] == batches;
      ended := Ran;
    }

    /** Candidates are delivered in physical order; stopping counts as failing. */
    method ScanCandidates(candidates: seq<uint32>, limit: nat) returns (count: nat)
      requires Ready() && limit >= 4
      modifies this
      ensures if candidates == [] || wanted >= |fields| || !Eligible(candidates, offsets, |file|) then calls == [] && count == 0
        else
          var d := Delivery.Deliver(file, RenderOf(fields, wanted), callback, SortRows(RowsFor(candidates, offsets)));
          calls == d.calls && count == if d.ended == Ran then |d.calls| else 0
    {
      if candidates == [] || wanted >= |fields| {
        return 0;
      }
      var ok, rows := CollectRows(candidates);
      if !ok {
        return 0;
      }
      var physical := SortRows(rows);
      assert AllPrefixed(physical, |file|) by { SortKeepsPrefixes(rows, |file|); }
      var batches := BuildSparseBatches(physical, limit);
      BatchesPartition(physical, |file|, limit);
      var ended := ProcessBatches(batches, limit);
      count := if ended == Ran then scanned else 0;
    }
  }

  /**
   * Over a map or in batches of any size of at least four bytes, the calls are the same exactly unless a
   * size prefix is missing and the mapped scan gets past the batches closed before it, and the counts are
   * equal exactly unless the callback stops, after having gone on, in a batch that is last or lost.
   */
  lemma {:induction false} MapOrBatches(file: seq<byte>, fields: seq<Field>, wanted: nat, callback: Callback<Call>, offsets: seq<uint64>,
                                        limit: nat)
    requires |offsets| <= TWO_32
    ensures var rows := RowsBelow(offsets, |file|, |offsets|);
      var mapped := Deliver(file, RenderOf(fields, wanted), callback, rows);
      var closed := Flushed(Delivery.Prefixed(rows, |file|), |file|, limit);
      && BatchedRun(file, RenderOf(fields, wanted), callback, rows, limit).calls <= mapped.calls
      && (BatchedRun(file, RenderOf(fields, wanted), callback, rows, limit).calls == mapped.calls
          <==> AllPrefixed(rows, |file|) || |mapped.calls| <= closed)
      && (BatchedCount(file, RenderOf(fields, wanted), callback, rows, limit) == MappedCount(mapped)
          <==> !(mapped.ended == Stopped && |mapped.calls| > closed && |mapped.calls| > 1))
  {
    var rows := RowsBelow(offsets, |file|, |offsets|);
    NeverUnreadable(file, fields, wanted, callback, rows);
    BatchedIsPrefix(file, RenderOf(fields, wanted), callback, rows, limit);
    CountsAgree(file, RenderOf(fields, wanted), callback, rows, limit);
  }
}
