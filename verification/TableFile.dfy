/**
 * Tables as they are written: a header, then every row behind its size, and the place of each row by FID.
 * What is written does not look at how files are read; every scan hands out exactly the rows that went in.
 */
module TableFile {
  import opened Bytes
  import opened Delivery
  import opened RowLayout
  import Scan = GeometryScan
  import Fields = FieldScan
  import Writer = RowWriter

  // ---- Writing ---------------------------------------------------------------------------------------

  /** What a table has for a FID. */
  datatype Stored = Gone | Kept(row: seq<byte>)

  /** Four bytes, the lowest first. */
  function SizeBytes(n: uint32): seq<byte> {
    [n % 256, n / 256 % 256, n / 65536 % 256, n / 16777216]
  }

  function Record(s: Stored): seq<byte>
    requires s.Kept? ==> |s.row| < TWO_32
  {
    if s.Gone? then [] else SizeBytes(|s.row|) + s.row
  }

  predicate RowsFit(stored: seq<Stored>) {
    forall i :: 0 <= i < |stored| && stored[i].Kept? ==> |stored[i].row| < TWO_32
  }

  /** The file after its first n FIDs. */
  function File(header: seq<byte>, stored: seq<Stored>, n: nat): seq<byte>
    requires n <= |stored| && RowsFit(stored)
  {
    if n == 0 then header else File(header, stored, n - 1) + Record(stored[n - 1])
  }

  /** Where a row begins; 0 for a FID without one. */
  function Offset(header: seq<byte>, stored: seq<Stored>, i: nat): nat
    requires i < |stored| && RowsFit(stored)
  {
    if stored[i].Gone? then 0 else |File(header, stored, i)|
  }

  /** A file of this table with these offsets. */
  ghost predicate Table(header: seq<byte>, stored: seq<Stored>, file: seq<byte>, offsets: seq<uint64>) {
    && header != [] && |stored| <= TWO_32 && RowsFit(stored)
    && file == File(header, stored, |stored|)
    && |offsets| == |stored| && forall i :: 0 <= i < |stored| ==> offsets[i] == Offset(header, stored, i)
  }

  // ---- One row ---------------------------------------------------------------------------------------

  lemma {:induction false} FileGrows(header: seq<byte>, stored: seq<Stored>, m: nat, n: nat)
    requires m <= n <= |stored| && RowsFit(stored)
    ensures File(header, stored, m) <= File(header, stored, n)
    decreases n
  {
    if m == n {
    } else {
      FileGrows(header, stored, m, n - 1);
    }
  }

  lemma SizeIsRead(n: uint32, file: seq<byte>, at: nat)
    requires at + 4 <= |file| && SizeBytes(n) <= file[at..]
    ensures SizeAt(file, at) == n
  {
    SizeParts(n);
    FourBytes(SizeBytes(n), file, at);
  }

  lemma SizeParts(n: uint32)
    ensures n % 256 + 256 * (n / 256 % 256) + 65536 * (n / 65536 % 256) + 16777216 * (n / 16777216) == n
  {
  }

  lemma FourBytes(s: seq<byte>, file: seq<byte>, at: nat)
    requires |s| == 4 && at + 4 <= |file| && s <= file[at..]
    ensures file[at] == s[0] && file[at + 1] == s[1] && file[at + 2] == s[2] && file[at + 3] == s[3]
  {
    assert forall k :: 0 <= k < 4 ==> file[at..][k] == s[k];
  }

  /** A row that is in a file: behind the right size, with all of its bytes. */
  predicate RowIn(file: seq<byte>, offset: nat, row: seq<byte>) {
    && HasRecordPrefix(offset, |file|) && ValidRecordSize(offset, SizeAt(file, offset), |file|)
    && RowAt(file, offset) == row
  }

  lemma {:induction false} RecordIsIn(file: seq<byte>, at: nat, row: seq<byte>)
    requires |row| < TWO_32 && at <= |file| && SizeBytes(|row|) + row <= file[at..]
    ensures RowIn(file, at, row)
  {
    var size := SizeBytes(|row|);
    assert size <= file[at..] by { assert file[at..][..4] == size; }
    SizeIsRead(|row|, file, at);
    Writer.PieceInside(size, row, file[at..]);
    assert file[at..][4..][..|row|] == file[at + 4..at + 4 + |row|];
  }

  lemma {:induction false} RowIsIn(header: seq<byte>, stored: seq<Stored>, file: seq<byte>, offsets: seq<uint64>, i: nat)
    requires Table(header, stored, file, offsets) && i < |stored| && stored[i].Kept?
    ensures 0 < offsets[i] && offsets[i] + 4 + |stored[i].row| <= |file| && RowIn(file, offsets[i], stored[i].row)
  {
    var front, r := File(header, stored, i), Record(stored[i]);
    assert header <= front by { FileGrows(header, stored, 0, i); }
    assert front + r <= file by { FileGrows(header, stored, i + 1, |stored|); }
    Writer.PieceInside(front, r, file);
    RecordIsIn(file, |front|, stored[i].row);
  }

  /** Rows lie one behind another, in FID order. */
  lemma {:induction false} OffsetsRise(header: seq<byte>, stored: seq<Stored>, file: seq<byte>, offsets: seq<uint64>, i: nat, j: nat)
    requires Table(header, stored, file, offsets) && i < j < |stored| && stored[i].Kept? && stored[j].Kept?
    ensures offsets[i] + 4 + |stored[i].row| <= offsets[j]
  {
    FileGrows(header, stored, i + 1, j);
  }

  // ---- Handing rows out ------------------------------------------------------------------------------

  /** The rows that these FIDs have, each where it is in the file. */
  ghost predicate RowsOfFids(stored: seq<Stored>, file: seq<byte>, fids: seq<uint32>, rows: seq<RowRef>) {
    |rows| == |fids| && forall k :: 0 <= k < |fids| ==> RowOfFid(stored, file, fids[k], rows[k])
  }

  predicate RowOfFid(stored: seq<Stored>, file: seq<byte>, fid: uint32, row: RowRef) {
    fid < |stored| && stored[fid].Kept? && row.fid == fid && RowIn(file, row.offset, stored[fid].row)
  }

  /** The k-th of the FIDs is called back with what its row is rendered as. */
  predicate CalledBack<C(==)>(stored: seq<Stored>, fids: seq<uint32>, render: Render<C>, calls: seq<C>, k: nat) {
    && k < |fids| && k < |calls| && fids[k] < |stored| && stored[fids[k]].Kept?
    && render(fids[k], stored[fids[k]].row) == Some(calls[k])
  }

  /** The k-th callback said go on. */
  predicate WentOn<C>(callback: Callback<C>, calls: seq<C>, k: nat) {
    k < |calls| && callback(calls[..k], calls[k])
  }

  /**
   * The FIDs' own rows were called back with, one call each and in their order, up to the end, to the
   * callback that said stop, or to a row that cannot be rendered.
   */
  ghost predicate HandsOut<C>(stored: seq<Stored>, fids: seq<uint32>, render: Render<C>, callback: Callback<C>, d: Delivered<C>) {
    && (forall k :: 0 <= k < |d.calls| ==> CalledBack(stored, fids, render, d.calls, k))
    && (forall k :: 0 <= k < |d.calls| - 1 ==> WentOn(callback, d.calls, k))
    && match d.ended
       case Ran => |d.calls| == |fids| && (d.calls != [] ==> WentOn(callback, d.calls, |d.calls| - 1))
       case Stopped => d.calls != [] && !WentOn(callback, d.calls, |d.calls| - 1)
       case Unreadable =>
         && |d.calls| < |fids| && (d.calls != [] ==> WentOn(callback, d.calls, |d.calls| - 1))
         && var fid := fids[|d.calls|]; fid < |stored| && stored[fid].Kept? && render(fid, stored[fid].row).None?
       case Failed => false
  }

  lemma {:induction false} HandOutNext<C>(stored: seq<Stored>, fids: seq<uint32>, fid: uint32, render: Render<C>, callback: Callback<C>,
                                          before: Delivered<C>, file: seq<byte>, row: RowRef)
    requires HandsOut(stored, fids, render, callback, before) && RowOfFid(stored, file, fid, row)
    ensures HandsOut(stored, fids + [fid], render, callback,
                     if before.ended != Ran then before else DeliverRow(file, render, callback, row, before.calls))
  {
    var more := fids + [fid];
    forall k | 0 <= k < |before.calls|
      ensures CalledBack(stored, more, render, before.calls, k)
    {
      assert CalledBack(stored, fids, render, before.calls, k);
    }
    if before.ended == Ran && render(fid, stored[fid].row).Some? {
      var calls := before.calls + [render(fid, stored[fid].row).value];
      assert calls[..|before.calls|] == before.calls;
      forall k | 0 <= k < |before.calls|
        ensures CalledBack(stored, more, render, calls, k) && WentOn(callback, calls, k)
      {
        assert CalledBack(stored, more, render, before.calls, k) && WentOn(callback, before.calls, k);
        assert calls[..k] == before.calls[..k];
      }
    }
  }

  lemma {:induction false} FrontRows(stored: seq<Stored>, file: seq<byte>, fids: seq<uint32>, rows: seq<RowRef>)
    requires RowsOfFids(stored, file, fids, rows) && rows != []
    ensures RowsOfFids(stored, file, fids[..|rows| - 1], rows[..|rows| - 1])
    ensures RowOfFid(stored, file, fids[|rows| - 1], rows[|rows| - 1])
  {
    var someFids, some := fids[..|rows| - 1], rows[..|rows| - 1];
    forall k | 0 <= k < |some|
      ensures RowOfFid(stored, file, someFids[k], some[k])
    {
      assert RowOfFid(stored, file, fids[k], rows[k]);
    }
  }

  lemma {:induction false} OneMoreRow(stored: seq<Stored>, file: seq<byte>, fids: seq<uint32>, rows: seq<RowRef>, fid: uint32, row: RowRef)
    requires RowsOfFids(stored, file, fids, rows) && RowOfFid(stored, file, fid, row)
    ensures RowsOfFids(stored, file, fids + [fid], rows + [row])
  {
    forall k | 0 <= k < |fids|
      ensures RowOfFid(stored, file, (fids + [fid])[k], (rows + [row])[k])
    {
      assert RowOfFid(stored, file, fids[k], rows[k]);
    }
  }

  /** Rows that are in a file, whichever and in whatever order, are delivered as they were written. */
  lemma {:induction false} RowsAreHandedOut<C>(stored: seq<Stored>, file: seq<byte>, fids: seq<uint32>, rows: seq<RowRef>,
                                               render: Render<C>, callback: Callback<C>)
    requires RowsOfFids(stored, file, fids, rows)
    ensures HandsOut(stored, fids, render, callback, Deliver(file, render, callback, rows))
  {
    if rows == [] {
    } else {
      var n := |rows| - 1;
      FrontRows(stored, file, fids, rows);
      RowsAreHandedOut(stored, file, fids[..n], rows[..n], render, callback);
      HandOutNext(stored, fids[..n], fids[n], render, callback, Deliver(file, render, callback, rows[..n]), file, rows[n]);
      assert fids[..n] + [fids[n]] == fids;
    }
  }

  /** How many callbacks said go on. */
  function GoneOn<C>(callback: Callback<C>, calls: seq<C>): nat {
    if calls == [] then 0
    else GoneOn(callback, calls[..|calls| - 1]) + if WentOn(callback, calls, |calls| - 1) then 1 else 0
  }

  lemma {:induction false} AllGoneOn<C>(callback: Callback<C>, calls: seq<C>, n: nat)
    requires n <= |calls| && forall k :: 0 <= k < n ==> WentOn(callback, calls, k)
    ensures GoneOn(callback, calls[..n]) == n
  {
    if n == 0 {
    } else {
      AllGoneOn(callback, calls, n - 1);
      assert calls[..n][..n - 1] == calls[..n - 1];
      assert WentOn(callback, calls, n - 1);
    }
  }

  /** What a scan counts: the callbacks that said go on. */
  lemma {:induction false} GoneOnIsCounted<C>(stored: seq<Stored>, fids: seq<uint32>, render: Render<C>, callback: Callback<C>, d: Delivered<C>)
    requires HandsOut(stored, fids, render, callback, d)
    ensures MappedCount(d) == GoneOn(callback, d.calls)
  {
    if d.calls != [] {
      AllGoneOn(callback, d.calls, |d.calls| - 1);
    }
  }

  /** A callback that always goes on is called once for every FID, if every row can be rendered. */
  lemma {:induction false} EveryRowIsHandedOut<C>(stored: seq<Stored>, fids: seq<uint32>, render: Render<C>, callback: Callback<C>, d: Delivered<C>)
    requires HandsOut(stored, fids, render, callback, d)
    requires forall calls, call :: callback(calls, call)
    requires forall k :: 0 <= k < |fids| && fids[k] < |stored| && stored[fids[k]].Kept? ==> render(fids[k], stored[fids[k]].row).Some?
    ensures d.ended == Ran && |d.calls| == |fids| == MappedCount(d)
  {
  }

  // ---- Every row of a table --------------------------------------------------------------------------

  /** The FIDs below n that have a row. */
  function FidsBelow(stored: seq<Stored>, n: nat): seq<uint32>
    requires n <= |stored| <= TWO_32
  {
    if n == 0 then [] else FidsBelow(stored, n - 1) + if stored[n - 1].Kept? then [n - 1] else []
  }

  predicate Rising(fids: seq<uint32>) {
    forall i, j :: 0 <= i < j < |fids| ==> fids[i] <= fids[j]
  }

  lemma {:induction false} FidsBelowAre(stored: seq<Stored>, n: nat, f: uint32)
    requires n <= |stored| <= TWO_32
    ensures f in FidsBelow(stored, n) <==> f < n && stored[f].Kept?
    ensures forall i :: 0 <= i < |FidsBelow(stored, n)| ==> FidsBelow(stored, n)[i] < n
    ensures forall i, j :: 0 <= i < j < |FidsBelow(stored, n)| ==> FidsBelow(stored, n)[i] < FidsBelow(stored, n)[j]
  {
    if n == 0 {
    } else {
      FidsBelowAre(stored, n - 1, f);
    }
  }

  /** A FID below n has its row where its offset says, or neither. */
  predicate InPlace(stored: seq<Stored>, file: seq<byte>, offsets: seq<uint64>, i: nat)
    requires i < |stored| == |offsets|
  {
    if stored[i].Kept? then offsets[i] != 0 && RowIn(file, offsets[i], stored[i].row) else offsets[i] == 0
  }

  lemma {:induction false} RowsBelowHave(stored: seq<Stored>, file: seq<byte>, offsets: seq<uint64>, n: nat)
    requires n <= |stored| == |offsets| <= TWO_32 && forall i :: 0 <= i < n ==> InPlace(stored, file, offsets, i)
    ensures RowsOfFids(stored, file, FidsBelow(stored, n), RowsBelow(offsets, |file|, n))
  {
    if n == 0 {
    } else {
      RowsBelowHave(stored, file, offsets, n - 1);
      assert InPlace(stored, file, offsets, n - 1);
      if stored[n - 1].Kept? {
        OneMoreRow(stored, file, FidsBelow(stored, n - 1), RowsBelow(offsets, |file|, n - 1), n - 1, RowRef(n - 1, offsets[n - 1]));
      }
    }
  }

  lemma {:induction false} TableHasRows(header: seq<byte>, stored: seq<Stored>, file: seq<byte>, offsets: seq<uint64>)
    requires Table(header, stored, file, offsets)
    ensures RowsOfFids(stored, file, FidsBelow(stored, |stored|), RowsBelow(offsets, |file|, |offsets|))
    ensures AllPrefixed(RowsBelow(offsets, |file|, |offsets|), |file|)
  {
    forall i | 0 <= i < |stored|
      ensures InPlace(stored, file, offsets, i)
    {
      if stored[i].Kept? {
        RowIsIn(header, stored, file, offsets, i);
      }
    }
    RowsBelowHave(stored, file, offsets, |stored|);
    forall k | 0 <= k < |RowsBelow(offsets, |file|, |offsets|)|
      ensures HasRecordPrefix(RowsBelow(offsets, |file|, |offsets|)[k].offset, |file|)
    {
      assert RowOfFid(stored, file, FidsBelow(stored, |stored|)[k], RowsBelow(offsets, |file|, |offsets|)[k]);
    }
  }

  /**
   * Over a map, or in batches of any size, a scan of a written table hands out the rows that went in, by
   * ascending FID.  The mapped scan counts the callbacks that said go on.
   */
  lemma {:induction false} TableIsScanned<C>(header: seq<byte>, stored: seq<Stored>, file: seq<byte>, offsets: seq<uint64>,
                                             render: Render<C>, callback: Callback<C>, limit: nat)
    requires Table(header, stored, file, offsets)
    ensures var rows := RowsBelow(offsets, |file|, |offsets|);
      var d := Deliver(file, render, callback, rows);
      && HandsOut(stored, FidsBelow(stored, |stored|), render, callback, d)
      && BatchedRun(file, render, callback, rows, limit) == d
      && MappedCount(d) == GoneOn(callback, d.calls)
      && (d.ended == Ran ==> BatchedCount(file, render, callback, rows, limit) == |d.calls|)
  {
    var rows := RowsBelow(offsets, |file|, |offsets|);
    TableHasRows(header, stored, file, offsets);
    RowsAreHandedOut(stored, file, FidsBelow(stored, |stored|), rows, render, callback);
    BatchedIsPrefix(file, render, callback, rows, limit);
    GoneOnIsCounted(stored, FidsBelow(stored, |stored|), render, callback, Deliver(file, render, callback, rows));
  }

  // ---- Candidates ------------------------------------------------------------------------------------

  function FidsOf(rows: seq<RowRef>): (fids: seq<uint32>)
    ensures |fids| == |rows|
  {
    seq(|rows|, i requires 0 <= i < |rows| => rows[i].fid)
  }

  lemma {:induction false} FidsApart(row: RowRef, rows: seq<RowRef>)
    ensures FidsOf([row] + rows) == [row.fid] + FidsOf(rows)
  {
  }

  lemma {:induction false} InsertKeepsFids(row: RowRef, rows: seq<RowRef>)
    ensures multiset(FidsOf(InsertRow(row, rows))) == multiset(FidsOf(rows)) + multiset{row.fid}
  {
    if rows == [] || NotAfter(row, rows[0]) {
      FidsApart(row, rows);
    } else {
      InsertKeepsFids(row, rows[1..]);
      FidsApart(rows[0], InsertRow(row, rows[1..]));
      FidsApart(rows[0], rows[1..]);
      assert rows == [rows[0]] + rows[1..];
    }
  }

  lemma {:induction false} SortKeepsFids(rows: seq<RowRef>)
    ensures multiset(FidsOf(SortRows(rows))) == multiset(FidsOf(rows))
  {
    if rows == [] {
    } else {
      SortKeepsFids(rows[1..]);
      InsertKeepsFids(rows[0], SortRows(rows[1..]));
      FidsApart(rows[0], rows[1..]);
      assert rows == [rows[0]] + rows[1..];
    }
  }

  /** Candidates of a written table are eligible exactly when each has a row. */
  lemma {:induction false} EligibleIff(header: seq<byte>, stored: seq<Stored>, file: seq<byte>, offsets: seq<uint64>, candidates: seq<uint32>)
    requires Table(header, stored, file, offsets)
    ensures Eligible(candidates, offsets, |file|) <==>
      forall i :: 0 <= i < |candidates| ==> candidates[i] < |stored| && stored[candidates[i]].Kept?
  {
    forall i | 0 <= i < |candidates| && candidates[i] < |stored|
      ensures stored[candidates[i]].Kept? <==> offsets[candidates[i]] != 0 && HasRecordPrefix(offsets[candidates[i]], |file|)
    {
      if stored[candidates[i]].Kept? {
        RowIsIn(header, stored, file, offsets, candidates[i]);
      }
    }
  }

  /** The row of a candidate, wherever it comes to be in the list. */
  lemma {:induction false} SortedHave(header: seq<byte>, stored: seq<Stored>, file: seq<byte>, offsets: seq<uint64>, candidates: seq<uint32>, k: nat)
    requires Table(header, stored, file, offsets) && Eligible(candidates, offsets, |file|)
    requires k < |SortRows(RowsFor(candidates, offsets))|
    ensures var row := SortRows(RowsFor(candidates, offsets))[k];
      RowOfFid(stored, file, row.fid, row) && row.fid < |offsets| && row.offset == offsets[row.fid]
  {
    var rows, sorted := RowsFor(candidates, offsets), SortRows(RowsFor(candidates, offsets));
    SortRowsSorts(rows);
    EligibleIff(header, stored, file, offsets, candidates);
    assert sorted[k] in multiset(rows);
    var i :| 0 <= i < |rows| && rows[i] == sorted[k];
    RowIsIn(header, stored, file, offsets, candidates[i]);
  }

  lemma {:induction false} SortedRise(header: seq<byte>, stored: seq<Stored>, file: seq<byte>, offsets: seq<uint64>, candidates: seq<uint32>,
                                      i: nat, j: nat)
    requires Table(header, stored, file, offsets) && Eligible(candidates, offsets, |file|)
    requires i < j < |SortRows(RowsFor(candidates, offsets))|
    ensures SortRows(RowsFor(candidates, offsets))[i].fid <= SortRows(RowsFor(candidates, offsets))[j].fid
  {
    var sorted := SortRows(RowsFor(candidates, offsets));
    SortRowsSorts(RowsFor(candidates, offsets));
    SortedHave(header, stored, file, offsets, candidates, i);
    SortedHave(header, stored, file, offsets, candidates, j);
    assert NotAfter(sorted[i], sorted[j]);
    if sorted[j].fid < sorted[i].fid {
      OffsetsRise(header, stored, file, offsets, sorted[j].fid, sorted[i].fid);
    }
  }

  /** Whatever the order they are given in, candidates of a written table are scanned by ascending FID, with a map or without. */
  lemma {:induction false} CandidatesAreOrdered(header: seq<byte>, stored: seq<Stored>, file: seq<byte>, offsets: seq<uint64>,
                                                candidates: seq<uint32>, mapped: bool)
    requires Table(header, stored, file, offsets) && Eligible(candidates, offsets, |file|)
    ensures var rows := RowsFor(candidates, offsets);
      && Fields.ScanOrder(mapped, rows) == SortRows(rows)
      && multiset(FidsOf(SortRows(rows))) == multiset(candidates) && Rising(FidsOf(SortRows(rows)))
      && RowsOfFids(stored, file, FidsOf(SortRows(rows)), SortRows(rows))
  {
    var rows, sorted := RowsFor(candidates, offsets), SortRows(RowsFor(candidates, offsets));
    SortKeepsFids(rows);
    assert FidsOf(rows) == candidates;
    forall k | 0 <= k < |sorted|
      ensures RowOfFid(stored, file, FidsOf(sorted)[k], sorted[k])
    {
      SortedHave(header, stored, file, offsets, candidates, k);
    }
    forall i, j | 0 <= i < j < |sorted|
      ensures FidsOf(sorted)[i] <= FidsOf(sorted)[j]
    {
      SortedRise(header, stored, file, offsets, candidates, i, j);
    }
    if mapped && Fields.OffsetsMonotonic(rows) {
      SameOffsetSameFid(header, stored, file, offsets, candidates);
      Fields.DirectIsSorted(rows);
    }
  }

  lemma {:induction false} SameOffsetSameFid(header: seq<byte>, stored: seq<Stored>, file: seq<byte>, offsets: seq<uint64>, candidates: seq<uint32>)
    requires Table(header, stored, file, offsets) && Eligible(candidates, offsets, |file|)
    ensures var rows := RowsFor(candidates, offsets);
      forall i, j :: 0 <= i < j < |rows| && rows[i].offset == rows[j].offset ==> rows[i].fid == rows[j].fid
  {
    EligibleIff(header, stored, file, offsets, candidates);
    forall i, j | 0 <= i < j < |candidates| && offsets[candidates[i]] == offsets[candidates[j]]
      ensures candidates[i] == candidates[j]
    {
      if candidates[i] < candidates[j] {
        OffsetsRise(header, stored, file, offsets, candidates[i], candidates[j]);
      } else if candidates[j] < candidates[i] {
        OffsetsRise(header, stored, file, offsets, candidates[j], candidates[i]);
      }
    }
  }

  /** A scan of candidates hands out exactly the rows that went in for them, by ascending FID. */
  lemma {:induction false} CandidatesAreScanned<C>(header: seq<byte>, stored: seq<Stored>, file: seq<byte>, offsets: seq<uint64>,
                                                   candidates: seq<uint32>, mapped: bool, render: Render<C>, callback: Callback<C>)
    requires Table(header, stored, file, offsets)
    requires forall i :: 0 <= i < |candidates| ==> candidates[i] < |stored| && stored[candidates[i]].Kept?
    ensures Eligible(candidates, offsets, |file|)
    ensures var rows := Fields.ScanOrder(mapped, RowsFor(candidates, offsets));
      var d := Deliver(file, render, callback, rows);
      && rows == SortRows(RowsFor(candidates, offsets))
      && multiset(FidsOf(rows)) == multiset(candidates) && Rising(FidsOf(rows))
      && HandsOut(stored, FidsOf(rows), render, callback, d) && MappedCount(d) == GoneOn(callback, d.calls)
  {
    EligibleIff(header, stored, file, offsets, candidates);
    CandidatesAreOrdered(header, stored, file, offsets, candidates, mapped);
    var rows := SortRows(RowsFor(candidates, offsets));
    RowsAreHandedOut(stored, file, FidsOf(rows), rows, render, callback);
    GoneOnIsCounted(stored, FidsOf(rows), render, callback, Deliver(file, render, callback, rows));
  }

  // ---- Tables of values ------------------------------------------------------------------------------

  lemma {:induction false} BitmapHasBytes(fields: seq<Field>, cells: seq<Writer.Cell>, row: seq<byte>, i: nat)
    requires Writer.Written(fields, cells, row) && i < |fields| && fields[i].nullable
    ensures row != []
  {
    Writer.AbsencesGrow(fields, cells, i + 1, |fields|);
    Writer.BitmapIsThere(fields, cells, row);
    Writer.PackLength(Writer.Absences(fields, cells, |fields|));
  }

  lemma {:induction false} CellHasBytes(fields: seq<Field>, cells: seq<Writer.Cell>, row: seq<byte>, i: nat)
    requires Writer.Written(fields, cells, row) && i < |fields| && Writer.Lengthy(fields[i].kind) && cells[i].Present?
    ensures row != []
  {
    var bitmap := Writer.Pack(Writer.Absences(fields, cells, |fields|)[..Nullables(fields)]);
    Writer.CellIsThere(fields, cells, bitmap, i, row);
  }

  /** A row with a geometry field, or any field with a length, has bytes. */
  lemma {:induction false} WrittenHasBytes(fields: seq<Field>, cells: seq<Writer.Cell>, row: seq<byte>, wanted: nat)
    requires Writer.Written(fields, cells, row) && wanted < |fields| && Writer.Lengthy(fields[wanted].kind)
    ensures row != []
  {
    assert Writer.Suits(fields[wanted], cells[wanted]);
    if cells[wanted].Absent? {
      BitmapHasBytes(fields, cells, row, wanted);
    } else {
      CellHasBytes(fields, cells, row, wanted);
    }
  }

  /** The rows are those of the values. */
  ghost predicate RowsOfCells(fields: seq<Field>, cells: seq<seq<Writer.Cell>>, stored: seq<Stored>) {
    |cells| == |stored| && forall i :: 0 <= i < |stored| && stored[i].Kept? ==> Writer.Written(fields, cells[i], stored[i].row)
  }

  /** From values to a file and back: a whole scan makes one call per row, with the geometry that was written, or null. */
  lemma {:induction false} GeometriesComeBack(header: seq<byte>, stored: seq<Stored>, file: seq<byte>, offsets: seq<uint64>,
                                              fields: seq<Field>, cells: seq<seq<Writer.Cell>>, wanted: nat, callback: Callback<Scan.Call>,
                                              limit: nat)
    requires Table(header, stored, file, offsets) && RowsOfCells(fields, cells, stored)
    requires wanted < |fields| && Writer.Lengthy(fields[wanted].kind)
    requires forall calls, call :: callback(calls, call)
    ensures var rows, render, fids := RowsBelow(offsets, |file|, |offsets|), Scan.RenderOf(fields, wanted), FidsBelow(stored, |stored|);
      var d := Deliver(file, render, callback, rows);
      && BatchedRun(file, render, callback, rows, limit) == d
      && MappedCount(d) == BatchedCount(file, render, callback, rows, limit) == |d.calls| == |fids|
      && forall k :: 0 <= k < |fids| ==>
           && fids[k] < |cells| && |cells[fids[k]]| == |fields|
           && d.calls[k] == Writer.GeometryOf(fields[wanted].kind, cells[fids[k]][wanted], fids[k])
  {
    var rows, render, fids := RowsBelow(offsets, |file|, |offsets|), Scan.RenderOf(fields, wanted), FidsBelow(stored, |stored|);
    var d := Deliver(file, render, callback, rows);
    TableIsScanned(header, stored, file, offsets, render, callback, limit);
    EveryRowIsHandedOut(stored, fids, render, callback, d);
    forall k | 0 <= k < |fids|
      ensures && fids[k] < |cells| && |cells[fids[k]]| == |fields|
        && d.calls[k] == Writer.GeometryOf(fields[wanted].kind, cells[fids[k]][wanted], fids[k])
    {
      assert CalledBack(stored, fids, render, d.calls, k);
      WrittenHasBytes(fields, cells[fids[k]], stored[fids[k]].row, wanted);
      Writer.GeometryIsHandedOut(fields, cells[fids[k]], stored[fids[k]].row, wanted, fids[k]);
    }
  }

  // ---- Files that end too soon -----------------------------------------------------------------------

  /** The file ends inside the row. */
  predicate Torn(stored: seq<Stored>, offsets: seq<uint64>, f: nat, end: nat)
    requires |stored| == |offsets|
  {
    f < |stored| && stored[f].Kept? && offsets[f] < end < offsets[f] + 4 + |stored[f].row|
  }

  lemma {:induction false} RowBeforeCut(file: seq<byte>, offset: nat, row: seq<byte>, end: nat)
    requires RowIn(file, offset, row) && offset + 4 + |row| <= end <= |file|
    ensures RowIn(file[..end], offset, row)
  {
    WindowSize(file, 0, end, offset);
    WindowRow(file, 0, end, offset + 4, offset + 4 + |row|);
    assert file[0..end] == file[..end];
  }

  lemma {:induction false} TornRowFails<C>(file: seq<byte>, row: RowRef, content: seq<byte>, end: nat, render: Render<C>, callback: Callback<C>,
                                           calls: seq<C>)
    requires RowIn(file, row.offset, content) && row.offset < end < row.offset + 4 + |content| && end <= |file|
    ensures DeliverRow(file[..end], render, callback, row, calls) == Delivered(calls, Failed)
  {
    if row.offset + 4 <= end {
      WindowSize(file, 0, end, row.offset);
      assert file[0..end] == file[..end];
    }
  }

  lemma {:induction false} NothingBehind(offsets: seq<uint64>, end: nat, m: nat, n: nat)
    requires m <= n <= |offsets| <= TWO_32 && forall i :: m <= i < n ==> offsets[i] == 0 || offsets[i] >= end
    ensures RowsBelow(offsets, end, n) == RowsBelow(offsets, end, m)
    decreases n
  {
    if m == n {
    } else {
      NothingBehind(offsets, end, m, n - 1);
    }
  }

  lemma {:induction false} RowsBeforeCut(header: seq<byte>, stored: seq<Stored>, file: seq<byte>, offsets: seq<uint64>, f: nat, end: nat)
    requires Table(header, stored, file, offsets) && f <= |stored| && end <= |file|
    requires forall i :: 0 <= i < f && stored[i].Kept? ==> offsets[i] + 4 + |stored[i].row| <= end
    ensures RowsOfFids(stored, file[..end], FidsBelow(stored, f), RowsBelow(offsets, end, f))
  {
    forall i | 0 <= i < f
      ensures InPlace(stored, file[..end], offsets, i)
    {
      if stored[i].Kept? {
        RowIsIn(header, stored, file, offsets, i);
        RowBeforeCut(file, offsets[i], stored[i].row, end);
      }
    }
    RowsBelowHave(stored, file[..end], offsets, f);
  }

  lemma {:induction false} OffsetBehindCut(header: seq<byte>, stored: seq<Stored>, file: seq<byte>, offsets: seq<uint64>, f: nat, i: nat, end: nat)
    requires Table(header, stored, file, offsets) && f < i < |stored| && stored[f].Kept? && end < offsets[f] + 4 + |stored[f].row|
    ensures offsets[i] == 0 || offsets[i] >= end
  {
    if stored[i].Kept? {
      OffsetsRise(header, stored, file, offsets, f, i);
    }
  }

  lemma {:induction false} NothingBehindCut(header: seq<byte>, stored: seq<Stored>, file: seq<byte>, offsets: seq<uint64>, f: nat, end: nat)
    requires Table(header, stored, file, offsets) && f < |stored| && stored[f].Kept? && end < offsets[f] + 4 + |stored[f].row|
    ensures RowsBelow(offsets, end, |offsets|) == RowsBelow(offsets, end, f + 1)
  {
    forall i | f < i < |stored|
      ensures offsets[i] == 0 || offsets[i] >= end
    {
      OffsetBehindCut(header, stored, file, offsets, f, i, end);
    }
    NothingBehind(offsets, end, f + 1, |offsets|);
  }

  lemma {:induction false} AtTheCut<C>(header: seq<byte>, stored: seq<Stored>, file: seq<byte>, offsets: seq<uint64>, f: nat, end: nat,
                                       render: Render<C>, callback: Callback<C>)
    requires Table(header, stored, file, offsets) && f < |stored| && stored[f].Kept? && end <= |file|
    requires end < offsets[f] + 4 + |stored[f].row|
    ensures var before := Deliver(file[..end], render, callback, RowsBelow(offsets, end, f));
      Deliver(file[..end], render, callback, RowsBelow(offsets, end, f + 1))
      == if Torn(stored, offsets, f, end) && before.ended == Ran then Delivered(before.calls, Failed) else before
  {
    var rows, before := RowsBelow(offsets, end, f + 1), Deliver(file[..end], render, callback, RowsBelow(offsets, end, f));
    if offsets[f] < end {
      RowIsIn(header, stored, file, offsets, f);
      assert rows[..|rows| - 1] == RowsBelow(offsets, end, f);
      TornRowFails(file, RowRef(f, offsets[f]), stored[f].row, end, render, callback, before.calls);
    }
  }

  /**
   * A written table whose file is cut off, inside the row of FID f or in front of it: the rows before are
   * handed out.  Inside a row the scan then fails; in front of it, it ends as if there had been no more.
   */
  lemma {:induction false} CutTableIsScanned<C>(header: seq<byte>, stored: seq<Stored>, file: seq<byte>, offsets: seq<uint64>, f: nat, end: nat,
                                                render: Render<C>, callback: Callback<C>)
    requires Table(header, stored, file, offsets) && f < |stored| && stored[f].Kept? && end <= |file|
    requires forall i :: 0 <= i < f && stored[i].Kept? ==> offsets[i] + 4 + |stored[i].row| <= end
    requires end < offsets[f] + 4 + |stored[f].row|
    ensures var before := Deliver(file[..end], render, callback, RowsBelow(offsets, end, f));
      var d := Deliver(file[..end], render, callback, RowsBelow(offsets, end, |offsets|));
      && HandsOut(stored, FidsBelow(stored, f), render, callback, before)
      && d == (if Torn(stored, offsets, f, end) && before.ended == Ran then Delivered(before.calls, Failed) else before)
      && MappedCount(d) == if d.ended == Failed then 0 else GoneOn(callback, d.calls)
  {
    RowsBeforeCut(header, stored, file, offsets, f, end);
    RowsAreHandedOut(stored, file[..end], FidsBelow(stored, f), RowsBelow(offsets, end, f), render, callback);
    GoneOnIsCounted(stored, FidsBelow(stored, f), render, callback, Deliver(file[..end], render, callback, RowsBelow(offsets, end, f)));
    AtTheCut(header, stored, file, offsets, f, end, render, callback);
    NothingBehindCut(header, stored, file, offsets, f, end);
  }
}
