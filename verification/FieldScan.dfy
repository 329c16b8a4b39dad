/** Handing out references to every field of chosen candidates, directly or in physical order. */
module FieldScan {
  import opened Bytes
  import opened RowLayout
  import opened RowScanners
  import opened Delivery

  /** One callback: the FID, the row its references point into, and the references. */
  datatype FieldCall = FieldCall(fid: uint32, row: seq<byte>, refs: seq<FieldRef>)

  function RenderOf(fields: seq<Field>): Render<FieldCall> {
    (fid: uint32, row: seq<byte>) => Rendered(fields, fid, row)
  }

  function Rendered(fields: seq<Field>, fid: uint32, row: seq<byte>): Option<FieldCall> {
    if row == [] then Some(FieldCall(fid, row, Refs(fields, seq(|fields|, _ => Null), fid)))
    else
      match Best(ByPointer, fields, row)
      case None => None
      case Some(c) => if |c.layout.slots| == |fields| then Some(FieldCall(fid, row, Refs(fields, c.layout.slots, fid))) else None
  }

  /** A row without bytes is handed out with every field null. */
  lemma NothingIsReferred(fields: seq<Field>, fid: uint32)
    ensures var call := Rendered(fields, fid, []);
      && call.Some? && call.value.fid == fid && call.value.row == [] && |call.value.refs| == |fields|
      && forall i :: 0 <= i < |fields| ==>
           call.value.refs[i].kind == fields[i].kind && call.value.refs[i].isNull && call.value.refs[i].data.None?
  {
  }

  predicate OffsetsMonotonic(rows: seq<RowRef>) {
    forall i, j :: 0 <= i < j < |rows| ==> rows[i].offset <= rows[j].offset
  }

  /** The order a candidate scan delivers in: the given one, or by offset and FID. */
  function ScanOrder(mapped: bool, rows: seq<RowRef>): seq<RowRef> {
    if mapped && OffsetsMonotonic(rows) then rows else SortRows(rows)
  }

  /**
   * The direct path delivers what the sorted one would exactly when candidates that share an offset come
   * in FID order, as they do in any ascending list.
   */
  lemma {:induction false} DirectIsSorted(rows: seq<RowRef>)
    requires OffsetsMonotonic(rows)
    ensures ScanOrder(true, rows) == ScanOrder(false, rows)
       <==> forall i, j :: 0 <= i < j < |rows| && rows[i].offset == rows[j].offset ==> rows[i].fid <= rows[j].fid
  {
    SortedAlready(rows);
    if InOrder(rows) {
      forall i, j | 0 <= i < j < |rows| && rows[i].offset == rows[j].offset
        ensures rows[i].fid <= rows[j].fid
      {
        assert NotAfter(rows[i], rows[j]);
      }
    }
  }

  lemma {:induction false} AscendingCandidates(candidates: seq<uint32>, offsets: seq<uint64>)
    requires forall i :: 0 <= i < |candidates| ==> candidates[i] < |offsets|
    requires forall i, j :: 0 <= i < j < |candidates| ==> candidates[i] < candidates[j]
    ensures ScanOrder(true, RowsFor(candidates, offsets)) == ScanOrder(false, RowsFor(candidates, offsets))
  {
    var rows := RowsFor(candidates, offsets);
    if OffsetsMonotonic(rows) {
      DirectIsSorted(rows);
    }
  }

  class FieldScanner {
    const fields: seq<Field>
    const file: seq<byte>
    const offsets: seq<uint64>
    const callback: Callback<FieldCall>
    const refs: RowRefs
    var calls: seq<FieldCall>
    var scanned: nat

    constructor (fields: seq<Field>, file: seq<byte>, offsets: seq<uint64>, callback: Callback<FieldCall>)
      ensures this.fields == fields && this.file == file && this.offsets == offsets
      ensures calls == [] && scanned == 0 && fresh(refs)
    {
      this.fields, this.file, this.offsets, this.callback := fields, file, offsets, callback;
      refs := new RowRefs();
      calls, scanned := [], 0;
    }

    ghost predicate Delivers(rows: seq<RowRef>)
      reads this
    {
      Delivery.Deliver(file, RenderOf(fields), callback, rows) == Delivered(calls, Ran) && scanned == |calls|
    }

    method EmitCandidate(fid: uint32, row: seq<byte>) returns (ended: Ended)
      modifies this, refs
      ensures match Rendered(fields, fid, row)
        case None => ended == Unreadable && calls == old(calls) && scanned == old(scanned)
        case Some(call) =>
          && ended == (if callback(old(calls), call) then Ran else Stopped) && calls == old(calls) + [call]
          && scanned == if ended == Ran then old(scanned) + 1 else old(scanned)
    {
      var accepted := refs.ParseRowRefs(fields, row, fid);
      if !accepted {
        return Unreadable;
      }
      var call := FieldCall(fid, row, refs.output);
      var goOn := callback(calls, call);
      calls := calls + [call];
      if !goOn {
        return Stopped;
      }
      scanned := scanned + 1;
      ended := Ran;
    }

    ghost predicate DeliveredAll(rows: seq<RowRef>, ended: Ended)
      reads this
    {
      && Delivery.Deliver(file, RenderOf(fields), callback, rows) == Delivered(calls, ended)
      && scanned == Delivery.Scanned(Delivered(calls, ended))
    }

    method EmitNext(ghost rows: seq<RowRef>, ghost n: nat, row: RowRef) returns (ended: Ended)
      requires n < |rows| && rows[n] == row && Delivers(rows[..n]) && HasRecordPrefix(row.offset, |file|)
      modifies this, refs
      ensures if ended == Ran then Delivers(rows[..n + 1]) else DeliveredAll(rows[..n + 1], ended)
    {
      DeliverNext(file, RenderOf(fields), callback, rows, n);
      var rowSize := SizeAt(file, row.offset);
      if rowSize > |file| - row.offset - 4 {
        return Failed;
      }
      ended := EmitCandidate(row.fid, file[row.offset + 4..row.offset + 4 + rowSize]);
    }

    /** Rows in the order given, through a map or read from the file. */
    method ScanRows(rows: seq<RowRef>) returns (count: nat)
      requires calls == [] && scanned == 0 && AllPrefixed(rows, |file|)
      modifies this, refs
      ensures var d := Delivery.Deliver(file, RenderOf(fields), callback, rows);
        calls == d.calls && count == MappedCount(d)
    {
      assert rows[..0] == [];
      for i := 0 to |rows|
        invariant Delivers(rows[..i])
      {
        var ended := EmitNext(rows, i, rows[i]);
        if ended != Ran {
          DeliverGrows(file, RenderOf(fields), callback, rows, i + 1);
          return if ended == Failed then 0 else scanned;
        }
      }
      assert rows[..|rows|] == rows;
      count := scanned;
    }

    method CheckCandidates(candidates: seq<uint32>) returns (ok: bool, monotonic: bool, rows: seq<RowRef>)
      ensures ok <==> Eligible(candidates, offsets, |file|)
      ensures ok ==> rows == RowsFor(candidates, offsets) && (monotonic <==> OffsetsMonotonic(rows))
    {
      ok, monotonic, rows := true, true, [];
      var previous: uint64 := 0;
      for i := 0 to |candidates|
        invariant Eligible(candidates[..i], offsets, |file|) && rows == RowsFor(candidates[..i], offsets)
        invariant i > 0 ==> previous == rows[i - 1].offset
        invariant monotonic <==> OffsetsMonotonic(rows)
      {
        if candidates[i] >= |offsets| || offsets[candidates[i]] == 0 || !HasRecordPrefix(offsets[candidates[i]], |file|) {
          ok := false;
          return;
        }
        var offset := offsets[candidates[i]];
        MonotonicNext(rows, RowRef(candidates[i], offset));
        if i > 0 && offset < previous {
          monotonic := false;
        }
        previous := offset;
        rows := rows + [RowRef(candidates[i], offset)];
      }
      assert candidates[..|candidates|] == candidates;
    }

    method ScanFieldCandidates(candidates: seq<uint32>, mapped: bool) returns (count: nat)
      requires calls == [] && scanned == 0
      modifies this, refs
      ensures if candidates == [] || fields == [] || offsets == [] || !Eligible(candidates, offsets, |file|) then calls == [] && count == 0
        else
          var d := Delivery.Deliver(file, RenderOf(fields), callback, ScanOrder(mapped, RowsFor(candidates, offsets)));
          calls == d.calls && count == MappedCount(d)
    {
      if candidates == [] || fields == [] || offsets == [] {
        return 0;
      }
      var ok, monotonic, rows := CheckCandidates(candidates);
      if !ok {
        return 0;
      }
      if mapped && monotonic {
        count := ScanRows(rows);
        return;
      }
      assert AllPrefixed(SortRows(rows), |file|) by { SortKeepsPrefixes(rows, |file|); }
      count := ScanRows(SortRows(rows));
    }
  }

  lemma {:induction false} MonotonicNext(rows: seq<RowRef>, row: RowRef)
    ensures OffsetsMonotonic(rows + [row]) <==> OffsetsMonotonic(rows) && (rows != [] ==> rows[|rows| - 1].offset <= row.offset)
  {
    var all := rows + [row];
    if OffsetsMonotonic(all) {
      forall i, j | 0 <= i < j < |rows|
        ensures rows[i].offset <= rows[j].offset
      {
        assert all[i].offset <= all[j].offset;
      }
      assert rows != [] ==> all[|rows| - 1].offset <= all[|rows|].offset;
    }
  }
}
