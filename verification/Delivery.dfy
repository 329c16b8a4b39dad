/**
 * Rows in a file, delivered one after another to a callback, and the batches a scan without a map reads
 * them in.
 */
module Delivery {
  import opened Bytes

  datatype RowRef = RowRef(fid: uint32, offset: uint64)

  predicate HasRecordPrefix(offset: nat, fileSize: nat) {
    offset <= fileSize && fileSize - offset >= 4
  }

  predicate ValidRecordSize(offset: nat, rowSize: nat, fileSize: nat) {
    HasRecordPrefix(offset, fileSize) && rowSize <= fileSize - offset - 4
  }

  /** The row's size, little-endian, in front of its bytes. */
  function SizeAt(bytes: seq<byte>, at: nat): uint32
    requires at + 4 <= |bytes|
  {
    var b0: int, b1: int, b2: int, b3: int := bytes[at], bytes[at + 1], bytes[at + 2], bytes[at + 3];
    b0 + 0x100 * b1 + 0x1_0000 * b2 + 0x100_0000 * b3
  }

  function RowAt(file: seq<byte>, offset: nat): seq<byte>
    requires offset + 4 <= |file| && offset + 4 + SizeAt(file, offset) <= |file|
  {
    file[offset + 4..offset + 4 + SizeAt(file, offset)]
  }

  /** Reading through a window of the file is reading the file. */
  lemma {:induction false} WindowSize(file: seq<byte>, start: nat, end: nat, at: nat)
    requires start <= at && at + 4 <= end <= |file|
    ensures SizeAt(file[start..end], at - start) == SizeAt(file, at)
  {
  }

  lemma {:induction false} WindowRow(file: seq<byte>, start: nat, end: nat, from: nat, to: nat)
    requires start <= from <= to <= end <= |file|
    ensures file[start..end][from - start..to - start] == file[from..to]
  {
    var w, f := file[start..end][from - start..to - start], file[from..to];
    forall i | 0 <= i < |f|
      ensures w[i] == f[i]
    {
    }
  }

  // ---- Delivery --------------------------------------------------------------------------------------

  /** What a row is handed out as, if it can be read at all. */
  type Render<!C> = (uint32, seq<byte>) -> Option<C>

  /** Whether to go on, after all calls so far and this one. */
  type Callback<!C> = (seq<C>, C) -> bool

  /** All rows done, the callback said stop, a row could not be read, or the file is not as it should be. */
  datatype Ended = Ran | Stopped | Unreadable | Failed

  datatype Delivered<C> = Delivered(calls: seq<C>, ended: Ended)

  /** One row after the calls so far. */
  function DeliverRow<C>(file: seq<byte>, render: Render<C>, callback: Callback<C>, row: RowRef, calls: seq<C>): Delivered<C> {
    if !HasRecordPrefix(row.offset, |file|) || !ValidRecordSize(row.offset, SizeAt(file, row.offset), |file|) then
      Delivered(calls, Failed)
    else
      match render(row.fid, RowAt(file, row.offset))
      case None => Delivered(calls, Unreadable)
      case Some(call) => Delivered(calls + [call], if callback(calls, call) then Ran else Stopped)
  }

  function Deliver<C>(file: seq<byte>, render: Render<C>, callback: Callback<C>, rows: seq<RowRef>): (d: Delivered<C>) {
    if rows == [] then Delivered([], Ran)
    else
      var before := Deliver(file, render, callback, rows[..|rows| - 1]);
      if before.ended != Ran then before
      else DeliverRow(file, render, callback, rows[|rows| - 1], before.calls)
  }

  /** The callbacks that said go on. */
  function Scanned<C>(d: Delivered<C>): int {
    if d.ended == Stopped then |d.calls| - 1 else |d.calls|
  }

  lemma {:induction false} DeliverNext<C>(file: seq<byte>, render: Render<C>, callback: Callback<C>, rows: seq<RowRef>, n: nat)
    requires n < |rows| && Deliver(file, render, callback, rows[..n]).ended == Ran
    ensures Deliver(file, render, callback, rows[..n + 1])
         == DeliverRow(file, render, callback, rows[n], Deliver(file, render, callback, rows[..n]).calls)
  {
    assert rows[..n + 1][..n] == rows[..n];
  }

  /** A delivery that has ended stays as it is, and one that goes on only adds calls. */
  lemma {:induction false} DeliverGrows<C>(file: seq<byte>, render: Render<C>, callback: Callback<C>, rows: seq<RowRef>, n: nat)
    requires n <= |rows|
    ensures var some, all := Deliver(file, render, callback, rows[..n]), Deliver(file, render, callback, rows);
      some.calls <= all.calls && (some.ended != Ran ==> some == all)
    decreases |rows|
  {
    if n == |rows| {
      assert rows[..n] == rows;
    } else {
      var front := rows[..|rows| - 1];
      assert front[..n] == rows[..n];
      DeliverGrows(file, render, callback, front, n);
    }
  }

  /** A row that is not in the file as it should be ends a delivery there. */
  lemma {:induction false} BadRowEnds<C>(file: seq<byte>, render: Render<C>, callback: Callback<C>, rows: seq<RowRef>, n: nat)
    requires n < |rows| && Deliver(file, render, callback, rows[..n]).ended == Ran
    requires !HasRecordPrefix(rows[n].offset, |file|) || !ValidRecordSize(rows[n].offset, SizeAt(file, rows[n].offset), |file|)
    ensures Deliver(file, render, callback, rows) == Delivered(Deliver(file, render, callback, rows[..n]).calls, Failed)
  {
    DeliverNext(file, render, callback, rows, n);
    DeliverGrows(file, render, callback, rows, n + 1);
  }

  // ---- Rows of a table -------------------------------------------------------------------------------

  /** The rows below a FID that the table has, in FID order. */
  function RowsBelow(offsets: seq<uint64>, fileSize: nat, fid: nat): seq<RowRef>
    requires fid <= |offsets| <= TWO_32
  {
    if fid == 0 then []
    else
      var before := RowsBelow(offsets, fileSize, fid - 1);
      if offsets[fid - 1] == 0 || offsets[fid - 1] >= fileSize then before
      else before + [RowRef(fid - 1, offsets[fid - 1])]
  }

  predicate AllPrefixed(rows: seq<RowRef>, fileSize: nat) {
    forall i :: 0 <= i < |rows| ==> HasRecordPrefix(rows[i].offset, fileSize)
  }

  // ---- Batches ---------------------------------------------------------------------------------------

  datatype Batch = Batch(offset: uint64, size: nat, rows: seq<RowRef>)

  predicate RowPrefixFits(b: Batch, offset: uint64) {
    b.rows != [] && offset >= b.offset && offset - b.offset <= b.size && b.size - (offset - b.offset) >= 4
  }

  function StartBatch(offset: uint64, fileSize: nat, limit: nat): Batch
    requires offset <= fileSize
  {
    Batch(offset, if limit <= fileSize - offset then limit else fileSize - offset, [])
  }

  /** The batch being filled after these rows. */
  function Current(rows: seq<RowRef>, fileSize: nat, limit: nat): Batch
    requires AllPrefixed(rows, fileSize)
  {
    if rows == [] then Batch(0, 0, [])
    else
      var b, row := Current(rows[..|rows| - 1], fileSize, limit), rows[|rows| - 1];
      if RowPrefixFits(b, row.offset) then b.(rows := b.rows + [row])
      else StartBatch(row.offset, fileSize, limit).(rows := [row])
  }

  /** The batches closed before it. */
  function Closed(rows: seq<RowRef>, fileSize: nat, limit: nat): seq<Batch>
    requires AllPrefixed(rows, fileSize)
  {
    if rows == [] then []
    else
      var b, row := Current(rows[..|rows| - 1], fileSize, limit), rows[|rows| - 1];
      var before := Closed(rows[..|rows| - 1], fileSize, limit);
      if RowPrefixFits(b, row.offset) || b.rows == [] then before else before + [b]
  }

  function Batches(rows: seq<RowRef>, fileSize: nat, limit: nat): seq<Batch>
    requires AllPrefixed(rows, fileSize)
  {
    var last := Current(rows, fileSize, limit);
    Closed(rows, fileSize, limit) + if last.rows == [] then [] else [last]
  }

  function RowsOf(batches: seq<Batch>): seq<RowRef> {
    if batches == [] then [] else RowsOf(batches[..|batches| - 1]) + batches[|batches| - 1].rows
  }

  /** A batch lies in the file, no longer than the limit, and holds the prefix of each of its rows. */
  predicate GoodBatch(b: Batch, fileSize: nat, limit: nat) {
    && b.rows != [] && b.offset + b.size <= fileSize && b.size <= limit
    && forall i :: 0 <= i < |b.rows| ==> PrefixInside(b, i)
  }

  /** The four bytes of a row's size are inside the batch's window. */
  predicate PrefixInside(b: Batch, i: nat) {
    i < |b.rows| && b.offset <= b.rows[i].offset && b.rows[i].offset + 4 <= b.offset + b.size
  }

  lemma {:induction false} GoodWithRow(b: Batch, row: RowRef, fileSize: nat, limit: nat)
    requires GoodBatch(b, fileSize, limit) && RowPrefixFits(b, row.offset)
    ensures GoodBatch(b.(rows := b.rows + [row]), fileSize, limit)
  {
    forall i | 0 <= i < |b.rows|
      ensures PrefixInside(b.(rows := b.rows + [row]), i)
    {
      assert PrefixInside(b, i);
    }
  }

  lemma {:induction false} CurrentIsGood(rows: seq<RowRef>, fileSize: nat, limit: nat)
    requires AllPrefixed(rows, fileSize) && limit >= 4
    ensures var b := Current(rows, fileSize, limit);
      if rows == [] then b.rows == [] else GoodBatch(b, fileSize, limit)
  {
    if rows == [] {
    } else {
      var before, row := Current(rows[..|rows| - 1], fileSize, limit), rows[|rows| - 1];
      CurrentIsGood(rows[..|rows| - 1], fileSize, limit);
      if RowPrefixFits(before, row.offset) {
        GoodWithRow(before, row, fileSize, limit);
      }
    }
  }

  lemma {:induction false} OneMoreBatch(batches: seq<Batch>, b: Batch)
    ensures RowsOf(batches + [b]) == RowsOf(batches) + b.rows
  {
    assert (batches + [b])[..|batches|] == batches;
  }

  /** How one more row goes into the batches. */
  lemma {:induction false} ClosedNext(rows: seq<RowRef>, fileSize: nat, limit: nat)
    requires AllPrefixed(rows, fileSize) && rows != []
    ensures var front, row := rows[..|rows| - 1], rows[|rows| - 1];
      var closed, b := Closed(front, fileSize, limit), Current(front, fileSize, limit);
      if RowPrefixFits(b, row.offset) then Closed(rows, fileSize, limit) == closed && Current(rows, fileSize, limit).rows == b.rows + [row]
      else
        && Current(rows, fileSize, limit).rows == [row]
        && Closed(rows, fileSize, limit) == if b.rows == [] then closed else closed + [b]
  {
  }

  lemma {:induction false} RowsNext(all: seq<RowRef>, row: RowRef, closed: seq<Batch>, b: Batch, more: seq<Batch>, current: seq<RowRef>)
    requires all == (RowsOf(closed) + b.rows) + [row]
    requires (more == closed && current == b.rows + [row]) || (more == closed && b.rows == [] && current == [row])
          || (more == closed + [b] && current == [row])
    ensures RowsOf(more) + current == all
  {
    OneMoreBatch(closed, b);
  }

  lemma {:induction false} ClosedAndCurrent(rows: seq<RowRef>, fileSize: nat, limit: nat)
    requires AllPrefixed(rows, fileSize)
    ensures RowsOf(Closed(rows, fileSize, limit)) + Current(rows, fileSize, limit).rows == rows
    ensures Current(rows, fileSize, limit).rows == [] ==> rows == []
  {
    if rows == [] {
    } else {
      var front, row := rows[..|rows| - 1], rows[|rows| - 1];
      ClosedNext(rows, fileSize, limit);
      ClosedAndCurrent(front, fileSize, limit);
      RowsNext(rows, row, Closed(front, fileSize, limit), Current(front, fileSize, limit),
               Closed(rows, fileSize, limit), Current(rows, fileSize, limit).rows);
    }
  }

  lemma {:induction false} ClosedAreGood(rows: seq<RowRef>, fileSize: nat, limit: nat, i: nat)
    requires AllPrefixed(rows, fileSize) && limit >= 4 && i < |Closed(rows, fileSize, limit)|
    ensures GoodBatch(Closed(rows, fileSize, limit)[i], fileSize, limit)
  {
    var front := rows[..|rows| - 1];
    if i < |Closed(front, fileSize, limit)| {
      ClosedAreGood(front, fileSize, limit, i);
    } else {
      CurrentIsGood(front, fileSize, limit);
    }
  }

  /** A batch begins with its first row, as long as the limit and the file allow. */
  predicate FullBatch(b: Batch, fileSize: nat, limit: nat) {
    && b.rows != [] && b.offset == b.rows[0].offset && b.offset <= fileSize
    && b.size == if limit <= fileSize - b.offset then limit else fileSize - b.offset
  }

  /** The next batch begins with a row whose size is not inside this one. */
  predicate EndsBefore(b: Batch, next: Batch) {
    next.rows != [] && (next.rows[0].offset < b.offset || next.rows[0].offset + 4 > b.offset + b.size)
  }

  lemma {:induction false} CurrentIsFull(rows: seq<RowRef>, fileSize: nat, limit: nat)
    requires AllPrefixed(rows, fileSize)
    ensures rows == [] || FullBatch(Current(rows, fileSize, limit), fileSize, limit)
    ensures Closed(rows, fileSize, limit) == [] ||
      EndsBefore(Closed(rows, fileSize, limit)[|Closed(rows, fileSize, limit)| - 1], Current(rows, fileSize, limit))
  {
    if rows == [] {
    } else {
      CurrentIsFull(rows[..|rows| - 1], fileSize, limit);
    }
  }

  lemma {:induction false} ClosedAreFull(rows: seq<RowRef>, fileSize: nat, limit: nat, i: nat)
    requires AllPrefixed(rows, fileSize) && i < |Closed(rows, fileSize, limit)|
    ensures FullBatch(Closed(rows, fileSize, limit)[i], fileSize, limit)
    ensures i > 0 ==> EndsBefore(Closed(rows, fileSize, limit)[i - 1], Closed(rows, fileSize, limit)[i])
  {
    var front := rows[..|rows| - 1];
    CurrentIsFull(front, fileSize, limit);
    if i < |Closed(front, fileSize, limit)| {
      ClosedAreFull(front, fileSize, limit, i);
    }
  }

  /** No batch is shorter than it could be, and none begins before it has to. */
  lemma {:induction false} BatchesAreFull(rows: seq<RowRef>, fileSize: nat, limit: nat, i: nat)
    requires AllPrefixed(rows, fileSize) && i < |Batches(rows, fileSize, limit)|
    ensures FullBatch(Batches(rows, fileSize, limit)[i], fileSize, limit)
    ensures i > 0 ==> EndsBefore(Batches(rows, fileSize, limit)[i - 1], Batches(rows, fileSize, limit)[i])
  {
    if i < |Closed(rows, fileSize, limit)| {
      ClosedAreFull(rows, fileSize, limit, i);
    } else {
      CurrentIsFull(rows, fileSize, limit);
    }
  }

  /**
   * The batches partition the rows in their order: one after another they hold each row once, and each
   * row's prefix is inside its batch.
   */
  lemma {:induction false} BatchesPartition(rows: seq<RowRef>, fileSize: nat, limit: nat)
    requires AllPrefixed(rows, fileSize) && limit >= 4
    ensures RowsOf(Batches(rows, fileSize, limit)) == rows
    ensures forall i :: 0 <= i < |Batches(rows, fileSize, limit)| ==> GoodBatch(Batches(rows, fileSize, limit)[i], fileSize, limit)
  {
    var closed, last := Closed(rows, fileSize, limit), Current(rows, fileSize, limit);
    ClosedAndCurrent(rows, fileSize, limit);
    CurrentIsGood(rows, fileSize, limit);
    OneMoreBatch(closed, last);
    assert closed + [] == closed && RowsOf(closed) + [] == RowsOf(closed);
    forall i | 0 <= i < |closed|
      ensures GoodBatch(closed[i], fileSize, limit)
    {
      ClosedAreGood(rows, fileSize, limit, i);
    }
  }

  lemma {:induction false} CurrentNext(rows: seq<RowRef>, row: RowRef, fileSize: nat, limit: nat)
    requires AllPrefixed(rows, fileSize) && HasRecordPrefix(row.offset, fileSize)
    ensures AllPrefixed(rows + [row], fileSize)
    ensures var b := Current(rows, fileSize, limit);
      Current(rows + [row], fileSize, limit) ==
        if RowPrefixFits(b, row.offset) then b.(rows := b.rows + [row])
        else StartBatch(row.offset, fileSize, limit).(rows := [row])
  {
    assert (rows + [row])[..|rows|] == rows;
  }

  /** How many of the rows are in closed batches. */
  function Flushed(rows: seq<RowRef>, fileSize: nat, limit: nat): (n: int)
    requires AllPrefixed(rows, fileSize)
    ensures 0 <= n <= |rows|
  {
    if rows == [] then 0
    else
      var front := rows[..|rows| - 1];
      if RowPrefixFits(Current(front, fileSize, limit), rows[|rows| - 1].offset) then Flushed(front, fileSize, limit)
      else |front|
  }

  lemma {:induction false} FlushedIsBeforeCurrent(rows: seq<RowRef>, fileSize: nat, limit: nat)
    requires AllPrefixed(rows, fileSize)
    ensures Flushed(rows, fileSize, limit) + |Current(rows, fileSize, limit).rows| == |rows|
  {
    if rows == [] {
    } else {
      FlushedIsBeforeCurrent(rows[..|rows| - 1], fileSize, limit);
    }
  }

  lemma {:induction false} FlushedGrows(rows: seq<RowRef>, fileSize: nat, limit: nat, n: nat)
    requires AllPrefixed(rows, fileSize) && n <= |rows|
    ensures Flushed(rows[..n], fileSize, limit) <= Flushed(rows, fileSize, limit)
  {
    if n == |rows| {
      assert rows[..n] == rows;
    } else {
      var front := rows[..|rows| - 1];
      assert front[..n] == rows[..n];
      FlushedGrows(front, fileSize, limit, n);
    }
  }

  lemma {:induction false} RowsBelowGrow(offsets: seq<uint64>, fileSize: nat, m: nat, n: nat)
    requires m <= n <= |offsets| <= TWO_32
    ensures RowsBelow(offsets, fileSize, m) <= RowsBelow(offsets, fileSize, n)
    decreases n
  {
    if m == n {
    } else {
      RowsBelowGrow(offsets, fileSize, m, n - 1);
    }
  }

  lemma {:induction false} NextRowBelow(offsets: seq<uint64>, fileSize: nat, fid: nat, n: nat)
    requires fid < |offsets| <= TWO_32 && offsets[fid] != 0 && offsets[fid] < fileSize
    requires n == |RowsBelow(offsets, fileSize, fid)|
    ensures var all := RowsBelow(offsets, fileSize, |offsets|);
      && n < |all| && all[n] == RowRef(fid, offsets[fid])
      && all[..n] == RowsBelow(offsets, fileSize, fid)
      && all[..n + 1] == RowsBelow(offsets, fileSize, fid + 1) == RowsBelow(offsets, fileSize, fid) + [RowRef(fid, offsets[fid])]
  {
    RowsBelowGrow(offsets, fileSize, fid + 1, |offsets|);
  }

  lemma {:induction false} DeliverAtMostOneEach<C>(file: seq<byte>, render: Render<C>, callback: Callback<C>, rows: seq<RowRef>)
    ensures |Deliver(file, render, callback, rows).calls| <= |rows|
  {
    if rows == [] {
    } else {
      DeliverAtMostOneEach(file, render, callback, rows[..|rows| - 1]);
    }
  }

  // ---- A dense scan in batches -----------------------------------------------------------------------

  /** The rows before the first whose prefix is not in the file. */
  function Prefixed(rows: seq<RowRef>, fileSize: nat): (kept: seq<RowRef>)
    ensures kept <= rows && AllPrefixed(kept, fileSize)
    ensures |kept| < |rows| ==> !HasRecordPrefix(rows[|kept|].offset, fileSize)
  {
    if rows == [] then []
    else
      var before := Prefixed(rows[..|rows| - 1], fileSize);
      if |before| == |rows| - 1 && HasRecordPrefix(rows[|rows| - 1].offset, fileSize) then rows else before
  }

  /** Rows whose batch is still open when a prefix is missing are never delivered. */
  function BatchedRun<C>(file: seq<byte>, render: Render<C>, callback: Callback<C>, rows: seq<RowRef>, limit: nat): Delivered<C> {
    var kept := Prefixed(rows, |file|);
    if kept == rows then Deliver(file, render, callback, rows)
    else
      var d := Deliver(file, render, callback, kept[..Flushed(kept, |file|, limit)]);
      if d.ended == Ran then Delivered(d.calls, Failed) else d
  }

  /** A callback that stops in the last batch makes the count 0. */
  function BatchedCount<C>(file: seq<byte>, render: Render<C>, callback: Callback<C>, rows: seq<RowRef>, limit: nat): int {
    var kept := Prefixed(rows, |file|);
    var d := BatchedRun(file, render, callback, rows, limit);
    if d.ended == Failed then 0
    else if d.ended != Ran && kept == rows && InLastBatch(d, kept, |file|, limit) then 0
    else Scanned(d)
  }

  predicate InLastBatch<C>(d: Delivered<C>, rows: seq<RowRef>, fileSize: nat, limit: nat)
    requires AllPrefixed(rows, fileSize)
  {
    |d.calls| > Flushed(rows, fileSize, limit)
  }

  function MappedCount<C>(d: Delivered<C>): int {
    if d.ended == Failed then 0 else Scanned(d)
  }

  /**
   * Whatever the window, a scan in batches makes the first of the calls the mapped scan makes, and makes
   * them all exactly unless a size prefix is missing and the mapped scan gets past the batches closed
   * before it: the rows of the open batch are lost.
   */
  lemma {:induction false} BatchedIsPrefix<C>(file: seq<byte>, render: Render<C>, callback: Callback<C>, rows: seq<RowRef>, limit: nat)
    ensures var batched, mapped := BatchedRun(file, render, callback, rows, limit), Deliver(file, render, callback, rows);
      && batched.calls <= mapped.calls
      && (batched.calls == mapped.calls <==>
            AllPrefixed(rows, |file|) || |mapped.calls| <= Flushed(Prefixed(rows, |file|), |file|, limit))
    ensures AllPrefixed(rows, |file|) ==> BatchedRun(file, render, callback, rows, limit) == Deliver(file, render, callback, rows)
  {
    var kept := Prefixed(rows, |file|);
    var n := Flushed(kept, |file|, limit);
    assert kept[..n] == rows[..n];
    DeliverGrows(file, render, callback, rows, n);
    DeliverAtMostOneEach(file, render, callback, rows[..n]);
    if Deliver(file, render, callback, rows[..n]).ended == Ran {
      RanCallsAll(file, render, callback, rows[..n]);
    }
  }

  lemma {:induction false} NotAllRan<C>(file: seq<byte>, render: Render<C>, callback: Callback<C>, rows: seq<RowRef>)
    requires !AllPrefixed(rows, |file|)
    ensures Deliver(file, render, callback, rows).ended != Ran
  {
    var front := rows[..|rows| - 1];
    if AllPrefixed(front, |file|) {
      assert forall i :: 0 <= i < |front| ==> rows[i] == front[i];
    } else {
      NotAllRan(file, render, callback, front);
    }
  }

  /**
   * The counts are equal as well exactly unless the callback stops, after having gone on, in the last batch
   * or in one that a missing prefix leaves open.
   */
  lemma {:induction false} CountsAgree<C>(file: seq<byte>, render: Render<C>, callback: Callback<C>, rows: seq<RowRef>, limit: nat)
    requires Deliver(file, render, callback, rows).ended != Unreadable
    ensures var d := Deliver(file, render, callback, rows);
      BatchedCount(file, render, callback, rows, limit) == MappedCount(d)
      <==> !(d.ended == Stopped && |d.calls| > Flushed(Prefixed(rows, |file|), |file|, limit) && |d.calls| > 1)
  {
    StoppedHasCalls(file, render, callback, rows);
    if !AllPrefixed(rows, |file|) {
      NotAllRan(file, render, callback, rows);
      var n := Flushed(Prefixed(rows, |file|), |file|, limit);
      assert Prefixed(rows, |file|)[..n] == rows[..n];
      DeliverGrows(file, render, callback, rows, n);
      DeliverAtMostOneEach(file, render, callback, rows[..n]);
      if Deliver(file, render, callback, rows[..n]).ended == Ran && Deliver(file, render, callback, rows).ended == Stopped {
        StoppedAfter(file, render, callback, rows, n);
      }
    }
  }

  lemma {:induction false} StoppedHasCalls<C>(file: seq<byte>, render: Render<C>, callback: Callback<C>, rows: seq<RowRef>)
    ensures Deliver(file, render, callback, rows).ended == Stopped ==> |Deliver(file, render, callback, rows).calls| > 0
  {
    if rows == [] {
    } else {
      StoppedHasCalls(file, render, callback, rows[..|rows| - 1]);
    }
  }

  /** In any file: a row, and an offset in the last three bytes.  The mapped scan delivers the row, the batched nothing. */
  lemma {:induction false} MissingPrefixLosesBatch<C>(file: seq<byte>, at: uint64, end: uint64, render: Render<C>, callback: Callback<C>,
                                                      limit: nat)
    requires HasRecordPrefix(at, |file|) && ValidRecordSize(at, SizeAt(file, at), |file|) && |file| - 4 < end < |file|
    requires render(0, RowAt(file, at)).Some?
    ensures var rows := [RowRef(0, at), RowRef(1, end)];
      && Deliver(file, render, callback, rows).calls == [render(0, RowAt(file, at)).value]
      && BatchedRun(file, render, callback, rows, limit).calls == []
  {
    var rows := [RowRef(0, at), RowRef(1, end)];
    assert rows[..1][..0] == [] && rows[..2] == rows;
    DeliverNext(file, render, callback, rows, 0);
    DeliverGrows(file, render, callback, rows, 1);
    assert Prefixed(rows, |file|) == rows[..1];
  }

  lemma {:induction false} FlushedNext(rows: seq<RowRef>, row: RowRef, fileSize: nat, limit: nat)
    requires AllPrefixed(rows + [row], fileSize) && AllPrefixed(rows, fileSize)
    ensures Flushed(rows + [row], fileSize, limit)
         == if RowPrefixFits(Current(rows, fileSize, limit), row.offset) then Flushed(rows, fileSize, limit) else |rows|
  {
    assert (rows + [row])[..|rows|] == rows;
  }

  lemma {:induction false} PrefixedKeeps(rows: seq<RowRef>, fileSize: nat, n: nat)
    requires n <= |rows| && AllPrefixed(rows[..n], fileSize)
    ensures rows[..n] <= Prefixed(rows, fileSize)
  {
    if n == 0 {
    } else {
      var front := rows[..|rows| - 1];
      var m := if n == |rows| then n - 1 else n;
      assert front[..m] == rows[..n][..m];
      PrefixedKeeps(front, fileSize, m);
      assert rows[n - 1] == rows[..n][n - 1];
      assert n == |rows| ==> front[..m] == front && rows[..n] == rows;
    }
  }

  lemma {:induction false} RanCallsAll<C>(file: seq<byte>, render: Render<C>, callback: Callback<C>, rows: seq<RowRef>)
    requires Deliver(file, render, callback, rows).ended == Ran
    ensures |Deliver(file, render, callback, rows).calls| == |rows|
  {
    if rows == [] {
    } else {
      RanCallsAll(file, render, callback, rows[..|rows| - 1]);
    }
  }

  lemma {:induction false} StoppedAfter<C>(file: seq<byte>, render: Render<C>, callback: Callback<C>, rows: seq<RowRef>, n: nat)
    requires n <= |rows| && Deliver(file, render, callback, rows[..n]).ended == Ran && Deliver(file, render, callback, rows).ended == Stopped
    ensures |Deliver(file, render, callback, rows).calls| > n
  {
    assert rows[..|rows|] == rows;
    if n == |rows| {
    } else {
      var front := rows[..|rows| - 1];
      assert front[..n] == rows[..n];
      if Deliver(file, render, callback, front).ended == Ran {
        RanCallsAll(file, render, callback, front);
      } else {
        StoppedAfter(file, render, callback, front, n);
      }
    }
  }

  /** A batch that ends the scan before the last one is reached. */
  lemma {:induction false} EndedEarly<C>(file: seq<byte>, render: Render<C>, callback: Callback<C>, rows: seq<RowRef>, n: nat, limit: nat)
    requires n < |rows| && AllPrefixed(rows[..n + 1], |file|) && Flushed(rows[..n + 1], |file|, limit) == n
    requires Deliver(file, render, callback, rows[..n]).ended != Ran
    ensures var d := Deliver(file, render, callback, rows[..n]);
      && BatchedRun(file, render, callback, rows, limit) == d
      && BatchedCount(file, render, callback, rows, limit) == MappedCount(d)
  {
    var kept := Prefixed(rows, |file|);
    PrefixedKeeps(rows, |file|, n + 1);
    assert kept[..n + 1] == rows[..n + 1];
    FlushedGrows(kept, |file|, limit, n + 1);
    var m := Flushed(kept, |file|, limit);
    assert kept[..m][..n] == rows[..n];
    DeliverGrows(file, render, callback, kept[..m], n);
    DeliverGrows(file, render, callback, rows, n);
    DeliverAtMostOneEach(file, render, callback, rows[..n]);
  }

  /** A missing prefix ends the scan with the open batch undelivered. */
  lemma {:induction false} EndedByMissingPrefix<C>(file: seq<byte>, render: Render<C>, callback: Callback<C>, rows: seq<RowRef>, n: nat, limit: nat)
    requires n < |rows| && AllPrefixed(rows[..n], |file|) && !HasRecordPrefix(rows[n].offset, |file|)
    requires Deliver(file, render, callback, rows[..n][..Flushed(rows[..n], |file|, limit)]).ended == Ran
    ensures BatchedRun(file, render, callback, rows, limit).calls
         == Deliver(file, render, callback, rows[..n][..Flushed(rows[..n], |file|, limit)]).calls
    ensures BatchedCount(file, render, callback, rows, limit) == 0
  {
    PrefixedKeeps(rows, |file|, n);
    assert Prefixed(rows, |file|) == rows[..n];
  }

  /** Every prefix is there: the last batch is delivered, but a callback that stops in it is counted 0. */
  lemma {:induction false} EndedByLastBatch<C>(file: seq<byte>, render: Render<C>, callback: Callback<C>, rows: seq<RowRef>, limit: nat)
    requires AllPrefixed(rows, |file|)
    requires Deliver(file, render, callback, rows[..Flushed(rows, |file|, limit)]).ended == Ran
    requires Deliver(file, render, callback, rows).ended != Unreadable
    ensures var d := Deliver(file, render, callback, rows);
      && BatchedRun(file, render, callback, rows, limit) == d
      && BatchedCount(file, render, callback, rows, limit) == if d.ended == Ran then |d.calls| else 0
  {
    assert rows[..|rows|] == rows;
    PrefixedKeeps(rows, |file|, |rows|);
    if Deliver(file, render, callback, rows).ended == Stopped {
      StoppedAfter(file, render, callback, rows, Flushed(rows, |file|, limit));
    }
  }

  // ---- Physical order --------------------------------------------------------------------------------

  /** By offset, then by FID. */
  predicate NotAfter(a: RowRef, b: RowRef) {
    a.offset < b.offset || (a.offset == b.offset && a.fid <= b.fid)
  }

  predicate InOrder(rows: seq<RowRef>) {
    forall i, j :: 0 <= i < j < |rows| ==> NotAfter(rows[i], rows[j])
  }

  function InsertRow(row: RowRef, rows: seq<RowRef>): seq<RowRef> {
    if rows == [] || NotAfter(row, rows[0]) then [row] + rows else [rows[0]] + InsertRow(row, rows[1..])
  }

  /** The library sort: the comparison leaves only one order. */
  function SortRows(rows: seq<RowRef>): seq<RowRef> {
    if rows == [] then [] else InsertRow(rows[0], SortRows(rows[1..]))
  }

  lemma {:induction false} InsertKeeps(row: RowRef, rows: seq<RowRef>)
    ensures multiset(InsertRow(row, rows)) == multiset(rows) + multiset{row}
  {
    if rows == [] || NotAfter(row, rows[0]) {
    } else {
      InsertKeeps(row, rows[1..]);
      assert rows == [rows[0]] + rows[1..];
    }
  }

  lemma {:induction false} InsertInOrder(row: RowRef, rows: seq<RowRef>)
    requires InOrder(rows)
    ensures InOrder(InsertRow(row, rows))
  {
    if rows == [] || NotAfter(row, rows[0]) {
    } else {
      InsertInOrder(row, rows[1..]);
      var rest := InsertRow(row, rows[1..]);
      forall i | 0 <= i < |rest|
        ensures NotAfter(rows[0], rest[i])
      {
        InsertKeeps(row, rows[1..]);
        assert rest[i] in multiset(rest);
        assert rest[i] == row || rest[i] in rows[1..];
      }
    }
  }

  lemma {:induction false} SortRowsSorts(rows: seq<RowRef>)
    ensures InOrder(SortRows(rows)) && multiset(SortRows(rows)) == multiset(rows)
  {
    if rows == [] {
    } else {
      SortRowsSorts(rows[1..]);
      InsertInOrder(rows[0], SortRows(rows[1..]));
      InsertKeeps(rows[0], SortRows(rows[1..]));
      assert rows == [rows[0]] + rows[1..];
    }
  }

  lemma {:induction false} SortLeavesOrdered(rows: seq<RowRef>)
    requires InOrder(rows)
    ensures SortRows(rows) == rows
  {
    if rows == [] {
    } else {
      SortLeavesOrdered(rows[1..]);
      assert |rows| > 1 ==> NotAfter(rows[0], rows[1]);
      assert rows == [rows[0]] + rows[1..];
    }
  }

  /** Sorting changes nothing exactly for rows in order. */
  lemma {:induction false} SortedAlready(rows: seq<RowRef>)
    ensures SortRows(rows) == rows <==> InOrder(rows)
  {
    SortRowsSorts(rows);
    if InOrder(rows) {
      SortLeavesOrdered(rows);
    }
  }

  lemma {:induction false} SortKeepsPrefixes(rows: seq<RowRef>, fileSize: nat)
    requires AllPrefixed(rows, fileSize)
    ensures AllPrefixed(SortRows(rows), fileSize)
  {
    SortRowsSorts(rows);
    var sorted := SortRows(rows);
    forall i | 0 <= i < |sorted|
      ensures HasRecordPrefix(sorted[i].offset, fileSize)
    {
      assert sorted[i] in multiset(sorted);
      assert sorted[i] in rows;
    }
  }

  // ---- Candidates ------------------------------------------------------------------------------------

  /** Every candidate is a row of the table whose prefix is in the file. */
  predicate Eligible(candidates: seq<uint32>, offsets: seq<uint64>, fileSize: nat) {
    forall i :: 0 <= i < |candidates| ==>
      candidates[i] < |offsets| && offsets[candidates[i]] != 0 && HasRecordPrefix(offsets[candidates[i]], fileSize)
  }

  function RowsFor(candidates: seq<uint32>, offsets: seq<uint64>): (rows: seq<RowRef>)
    requires forall i :: 0 <= i < |candidates| ==> candidates[i] < |offsets|
    ensures |rows| == |candidates|
  {
    seq(|candidates|, i requires 0 <= i < |candidates| => RowRef(candidates[i], offsets[candidates[i]]))
  }

  lemma {:induction false} RowsOfPrefix(batches: seq<Batch>, n: nat)
    requires n <= |batches|
    ensures RowsOf(batches[..n]) <= RowsOf(batches)
  {
    if n == |batches| {
      assert batches[..n] == batches;
    } else {
      var front := batches[..|batches| - 1];
      assert front[..n] == batches[..n];
      RowsOfPrefix(front, n);
    }
  }
}
