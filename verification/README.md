# Verification of fast-gdb's core

This project models the parts of fast-gdb whose correctness is hardest to see from reading one function,
and proves properties of them with Dafny. `dafny verify dfyconfig.toml` checks everything.

- **Sharing a source** (`Coordination`, `CoordinationRuns`, `SourceStates`, `AdaptiveSession`). The process-wide registry
  of readers and writers is a set of blocks run under one mutex. The classes run the blocks in place;
  `CoordinationRuns` lets any number of clients interleave them, move and lose their leases and tokens, and
  proves what holds in every reachable state and over every run. `SourceStates` shows that the flags are a
  machine of three states and who is let in when. On top come the session's reads and the adaptive cursor,
  including back ends that throw.
- **Row layouts** (`RowLayout`, `RowScanners`, `RecordReader`, `FeatureReader`, `RowWriter`). A row does not say how long
  its null bitmap is. Five searches, written out separately with early exits, look for the layout with the
  least zero padding. Each is proved against one definition without early exits, whose result is
  characterised independently, so they accept the same rows in the same layout. Two of them go through a
  reader that adds before it compares: exactly which prefixes that matters for, exactly which rows lead into
  an undefined read, and exactly when record, feature and scans come to the same layout, and a projection to
  that of the whole read, are theorems about every row (`RecordReader.RecordAgreesWithScans`,
  `FeatureReader.FeatureDecodesScannedBytes`, `FeatureReader.ProjectionIsMask`). `RowWriter` writes rows
  without looking at how they are read, and all five give back the nulls and bytes that went in.
- **Scans** (`Delivery`, `GeometryScan`, `FieldScan`, `TableFile`). The scan over a map, the scan in batches and the scans
  of candidates make the same calls, for any window; `GeometryScan.MapOrBatches` says for every table exactly
  when calls and counts differ. `TableFile` writes whole files, and every scan hands out what went in.
- **Codecs and calendar** (`Varint`, `BinaryReader`, `Utf16`, `Calendar`, `OleDate`). Encoders and decoders
  that live in different files are mutually inverse, and so are the two calendar formulas.
- **Stateful containers** (`TablxCache`, `FeatureCursor`, `FeatureCursorRuns`, `CourseGraph`). The offset
  cache refines a recency list, the feature cursor is a state machine around the engine's only lease, alone
  and among any number of others, and the course graph check accepts exactly the graphs on which the status
  recursion ends.

`Bytes` holds the machine-width types. Functions named in the classes' contracts (`PublishBlock`,
`CloseState`, `Best`, `Deliver`, `NextStep` and the like) say what one step does; the lemmas say what the
steps amount to.

What the code does differently from its own comments, or from what one would expect, is kept and stated:

- The example bytes for +1 and -1 in the comments of `varint.h` and `binary_reader.h` are not what the code
  writes (`Varint.OneAndMinusOne`).
- Updating a cached entry evicts nothing, so the byte budget can be exceeded (`TablxCache.UpdateOverBudget`).
- A callback that stops in the last batch of a dense scan makes the batched scan return 0
  (`Delivery.CountsAgree`), and a size prefix that is cut off by the end of the file loses the open batch
  (`Delivery.BatchedIsPrefix`, `Delivery.MissingPrefixLosesBatch`).
- `BinaryReader` adds position and length before comparing, so a prefix can lead it backwards: a row that
  every scan refuses can be read as a record (`RecordReader.WrappedRowIsRead`), and a projection can read a
  row that is refused as a whole (`FeatureReader.ProjectionReadsMore`); it is a mask of the whole feature
  exactly unless a layout reached so overtakes that of the whole read (`FeatureReader.ProjectionIsMask`).
- A back-end exception whose text is empty passes for the end of the data
  (`AdaptiveSession.SilentExceptionLooksLikeTheEnd`).
- For a row without bytes the sequential scan hands out the implied value 0, the candidate scan the FID plus
  one (`RowScanners.ScanRow`, `RowScanners.RowRefs.ParseRowRefs`); the feature read refuses it where the
  geometry is not nullable, the record read does not (`FeatureReader.ZeroAlike`).

## Model

| member | source | states |
|---|---|---|
| `Coordination.TakeId` | src/edgar/explorgdb/adaptive/adaptive_coordination.cpp:360-361 | A token id is never 0, and short of the 64-bit wrap every id is larger than those before it |
| `Coordination.IdsFollow` | src/edgar/explorgdb/adaptive/adaptive_coordination.cpp:360-361 | Ids are the numbers from 1 on, each once and in order, and from 1 again after the last of 64 bits |
| `Coordination.CoordinatorRegistry.PublishPending` | src/edgar/explorgdb/adaptive/adaptive_coordination.cpp:347-365 | The first half of a prepare under the mutex: refused with the Writer that is in the way and the count of active readers, or Pending published under a fresh id; the answer and the whole registry afterwards |
| `Coordination.CompleteExternalUpdate` | src/edgar/explorgdb/adaptive/adaptive_coordination.cpp:61-100 | A close report: only the owner of the active Writer is heard, the generation is raised at the first report only, and a failed close keeps Active and clears verification |
| `Coordination.FastReaderLease.Granted` | src/edgar/explorgdb/adaptive/adaptive_coordination.cpp:104-113 | A granted lease is counted and carries the generation and pending events it was granted at |
| `Coordination.FastReaderLease.ExpiredAtSafePoint` | src/edgar/explorgdb/adaptive/adaptive_coordination.cpp:146-155 | A lease without a registry or source is expired, any other exactly when the source no longer admits readers or moved to another generation |
| `Coordination.FastReaderLease.WriterPendingObserved` | src/edgar/explorgdb/adaptive/adaptive_coordination.cpp:157-164 | True exactly when a Pending was published since the lease was granted |
| `Coordination.FastReaderLease.Release` | src/edgar/explorgdb/adaptive/adaptive_coordination.cpp:168-181 | The count is given back once; an uncounted lease changes nothing |
| `Coordination.FastReaderLease.AbandonFailClosed` | src/edgar/explorgdb/adaptive/adaptive_reader.h:125-129 | The lease forgets its registry without giving its count back |
| `Coordination.FastReaderLease.MoveFrom` | src/edgar/explorgdb/adaptive/adaptive_coordination.cpp:126-138 | Move assignment releases what was held, takes the other lease over and leaves it uncounted; assigned to itself a lease changes nothing |
| `Coordination.ExternalUpdateToken.NotifyUpdateOpened` | src/edgar/explorgdb/adaptive/adaptive_coordination.cpp:235-258 | Only a Pending token that still owns its source opens, and only over a drained source; on refusal nothing changes |
| `Coordination.ExternalUpdateToken.CancelBeforeUpdate` | src/edgar/explorgdb/adaptive/adaptive_coordination.cpp:262-281 | Only a Pending token that still owns its source withdraws it |
| `Coordination.ExternalUpdateToken.NotifyUpdateClosed` | src/edgar/explorgdb/adaptive/adaptive_coordination.cpp:283-293 | Only an Active token reports, and it stays Active until a report succeeds |
| `Coordination.ExternalUpdateToken.AbandonCurrentState` | src/edgar/explorgdb/adaptive/adaptive_coordination.cpp:295-311 | Losing a token withdraws a Pending and never clears an Active |
| `Coordination.ExternalUpdateToken.MoveFrom` | src/edgar/explorgdb/adaptive/adaptive_coordination.cpp:202-213 | Move assignment abandons what was held and leaves the other token invalid; assigned to itself a token changes nothing |
| `Coordination.InProcessGdbCoordinator.TryAcquireFastReader` | src/edgar/explorgdb/adaptive/adaptive_coordination.cpp:316-330 | A lease is granted exactly when the source admits readers, counts one, and snapshots the source |
| `Coordination.InProcessGdbCoordinator.FinishPrepare` | src/edgar/explorgdb/adaptive/adaptive_coordination.cpp:376-395 | The second half of a prepare: a token exactly when the source is drained under its own Pending, otherwise its own Pending and no other is withdrawn; the count of active readers is reported either way |
| `Coordination.InProcessGdbCoordinator.State` | src/edgar/explorgdb/adaptive/adaptive_coordination.cpp:407-416 | A snapshot of the source, the default one for a path never seen |
| `CoordinationRuns.InvKept` | src/edgar/explorgdb/adaptive/adaptive_coordination.cpp:61-181 | Every block of every client, run at any moment, keeps the protocol invariant over entries, counts, leases, writers and ids |
| `CoordinationRuns.InvAlways` | src/edgar/explorgdb/adaptive/adaptive_coordination.cpp:235-405 | So does every interleaving |
| `CoordinationRuns.RegistrySafety` | src/edgar/explorgdb/adaptive/adaptive_coordination.cpp:316-396 | In every reachable state: an active Writer excludes readers, Pending and Active exclude each other, the token id is nonzero exactly with one of them, unverified means active with the generation already raised, and the reader count is the live counted leases plus the abandoned ones |
| `CoordinationRuns.LeaseSpan` | src/edgar/explorgdb/adaptive/adaptive_coordination.cpp:316-330 | While a lease is held, at every moment of every interleaving its source stays at the lease's generation, verified, with no Writer active |
| `CoordinationRuns.AbandonedForever` | src/edgar/explorgdb/adaptive/adaptive_reader.h:122-129 | After a count is abandoned the source never has an active Writer again and no waiting prepare succeeds |
| `CoordinationRuns.GenerationsNeverDecrease` | src/edgar/explorgdb/adaptive/adaptive_coordination.cpp:80-84 | Over any run no generation goes down |
| `CoordinationRuns.WriterSpan` | src/edgar/explorgdb/adaptive/adaptive_coordination.cpp:80-96 | While one Writer owns a source, the generation differs from where it began by the one raise at most |
| `CoordinationRuns.WriterLifetime` | src/edgar/explorgdb/adaptive/adaptive_coordination.cpp:61-100 | From publication to its end a Writer raises the generation by exactly one if it was active and by nothing if it was withdrawn, however many closes were reported |
| `CoordinationRuns.AWriterLifetime` | src/edgar/explorgdb/adaptive/adaptive_coordination.cpp:398-405 | Such lifetimes exist: one that is drained, opened, fails to close and is recovered by its saved id |
| `CoordinationRuns.EndedWritersAreRetired` | src/edgar/explorgdb/adaptive/adaptive_coordination.cpp:262-281 | Every way a Writer can end leaves its id owned by no source |
| `CoordinationRuns.RetiredForever` | src/edgar/explorgdb/adaptive/adaptive_coordination.cpp:72-78 | A retired id, whoever kept it, never changes any later state: completing, opening and cancelling with it are refused without effect (until ids wrap) |
| `CoordinationRuns.FailClosed` | src/edgar/explorgdb/adaptive/adaptive_coordination.cpp:86-90 | After a close was reported as failed, no lease is granted and no prepare succeeds, and the entry does not change, until the same id reports success |
| `CoordinationRuns.Recovery` | src/edgar/explorgdb/adaptive/adaptive_coordination.cpp:398-405 | The saved id reporting success, token or no token, admits readers again at once without raising the generation a second time |
| `CoordinationRuns.ReadersOnlyLeave` | src/edgar/explorgdb/adaptive/adaptive_coordination.cpp:316-327 | Under a Pending or Active Writer no action of anybody raises the reader count |
| `CoordinationRuns.ReadersDrain` | src/edgar/explorgdb/adaptive/adaptive_coordination.cpp:316-327 | From the publication of a Writer, as long as its id owns the source, over every interleaving, waiting, active or failed to close, the reader count only falls |
| `CoordinationRuns.PreparedTokenOpens` | src/edgar/explorgdb/adaptive/adaptive_coordination.cpp:235-258 | A token obtained from prepare never meets active readers when it opens, and can always be cancelled instead |
| `CoordinationRuns.PreparingSpan` | src/edgar/explorgdb/adaptive/adaptive_coordination.cpp:367-374 | While one client waits for the drain, the others can do nothing to its source but leave it |
| `CoordinationRuns.TimedOutPrepare` | src/edgar/explorgdb/adaptive/adaptive_coordination.cpp:381-390 | A prepare that times out had readers left, and leaves the source as it was but for one more pending event and the readers that left meanwhile |
| `SourceStates.EntryIsItsState` | src/edgar/explorgdb/adaptive/adaptive_coordination.cpp:316-396 | In every good entry the flags say no more than one of three states: nobody's, announced by an id, or being updated by an id, with or without a failed close |
| `SourceStates.BlockIsStep` | src/edgar/explorgdb/adaptive/adaptive_coordination.cpp:61-396 | Every block, on flags, is one step of a three-state machine written without them: the same answer, the same state of its source, and an id used only if a writer was announced |
| `SourceStates.OtherSourcesStay` | src/edgar/explorgdb/adaptive/adaptive_coordination.cpp:61-396 | No block changes another source |
| `SourceStates.NoPathNoBlock` | src/edgar/explorgdb/adaptive/adaptive_coordination.cpp:316-346 | A path without a normal form is refused and leaves no trace |
| `SourceStates.LeaseExpires` | src/edgar/explorgdb/adaptive/adaptive_coordination.cpp:146-155 | A lease expires at a safe point exactly if its source is gone, announced, updated, or at another generation |
| `SourceStates.ReaderIsAdmitted` | src/edgar/explorgdb/adaptive/adaptive_coordination.cpp:316-330 | A reader gets its lease exactly if no writer is announced or active, however many readers there are; the count is one higher, the lease has the source's generation and events, and nothing else changes |
| `SourceStates.ReadersAreAdmitted` | src/edgar/explorgdb/adaptive/adaptive_coordination.cpp:316-330 | Any number of readers of a source without a writer are admitted one after another, each with a lease on what is there, and counted |
| `SourceStates.ReadersHoldLeases` | src/edgar/explorgdb/adaptive/adaptive_coordination.cpp:316-330 | Every one of them then holds a counted lease |
| `SourceStates.WriterIsAnnounced` | src/edgar/explorgdb/adaptive/adaptive_coordination.cpp:347-365 | A writer is announced exactly if the source is nobody's, readers or not, and is otherwise told whether an announced or an active one is in its way |
| `SourceStates.WriterIsPrepared` | src/edgar/explorgdb/adaptive/adaptive_coordination.cpp:376-395 | A waiting prepare succeeds exactly if no reader is left, and otherwise gives the source back |
| `SourceStates.WriterIsOpened` | src/edgar/explorgdb/adaptive/adaptive_coordination.cpp:235-281 | A prepared token opens the source under its id, or gives it back as it was |
| `SourceStates.LostTokenGivesBack` | src/edgar/explorgdb/adaptive/adaptive_coordination.cpp:295-311 | A prepared token that is lost gives the source back |
| `SourceStates.CloseIsReported` | src/edgar/explorgdb/adaptive/adaptive_coordination.cpp:61-100 | The first close reported for an update raises the generation, failed or not; a failed one keeps the source suspect and shut, a successful one gives it to everybody |
| `SourceStates.TokenIsClosed` | src/edgar/explorgdb/adaptive/adaptive_coordination.cpp:283-293 | Closing by token reports its id, and the token stays active until a report succeeds |
| `SourceStates.LeaseIsGivenUp` | src/edgar/explorgdb/adaptive/adaptive_coordination.cpp:168-181 | A released lease takes one from the readers; an abandoned one is empty, and its count stays |
| `SourceStates.WrappedAtTheLast` | src/edgar/explorgdb/adaptive/adaptive_coordination.cpp:360-361 | The ids wrap when the last number of 64 bits is given out, and at no other step |
| `SourceStates.EventsAreAnnouncements` | src/edgar/explorgdb/adaptive/adaptive_coordination.cpp:362-364 | Over any run the event counter counts the writers announced on the path, and a source found announced that was not before was announced in the run |
| `AdaptiveSession.ReadFastPath` | src/edgar/explorgdb/adaptive/adaptive_session.cpp:117-163 | The fast read's result from the state and the events found after the executor, and the lease is released |
| `AdaptiveSession.ReadGdalPath` | src/edgar/explorgdb/adaptive/adaptive_session.cpp:165-201 | The fresh read's result from the states before and after the executor |
| `AdaptiveSession.Read` | src/edgar/explorgdb/adaptive/adaptive_session.cpp:389-417 | Answer and registry of a read whose blocks follow each other, as `AdaptiveSession.ReadIsAnswered` says |
| `AdaptiveSession.FastReadSound` | src/edgar/explorgdb/adaptive/adaptive_session.cpp:117-163 | Whatever everybody else does while the executor runs, and between the read's two looks at the registry, a fast read is never reported expired, is Verified exactly when the executor succeeded, and at every moment since the grant the source was at one generation with no Writer active |
| `AdaptiveSession.FastReadSees` | src/edgar/explorgdb/adaptive/adaptive_session.cpp:117-163 | From the grant on, whatever everybody else does: the executor's result or its error text, at one generation, and a pending writer is reported exactly if one was announced since the grant |
| `AdaptiveSession.DisturbedReadExpires` | src/edgar/explorgdb/adaptive/adaptive_session.cpp:143-149 | On a source that is not as the lease found it a fast read reports expiry and has no result, whatever the executor came to |
| `AdaptiveSession.GdalReadSees` | src/edgar/explorgdb/adaptive/adaptive_session.cpp:165-201 | Whatever everybody else does while the executor runs, the fresh read has the executor's result, or the status and text of its failure, the generations before and after, and reports a pending writer exactly if one was there at either end or was announced in between, an active one exactly if one was there at either end |
| `AdaptiveSession.ReadIsAnswered` | src/edgar/explorgdb/adaptive/adaptive_session.cpp:389-417 | A source that is nobody's is read fast and verified; on any other the policy decides between busy and the fresh read; the source is left as it was |
| `AdaptiveSession.AdaptiveFeatureCursor.Next` | src/edgar/explorgdb/adaptive/adaptive_session.cpp:285-322 | One call of next: the new cursor state, whether a feature was delivered, and what became of the lease |
| `AdaptiveSession.AdaptiveFeatureCursor.CloseBackend` | src/edgar/explorgdb/adaptive/adaptive_session.cpp:326-373 | Closing: the back end at most once, then the lease released, or abandoned when the fast back end did not prove it closed |
| `AdaptiveSession.OpenCursor` | src/edgar/explorgdb/adaptive/adaptive_session.cpp:419-437 | The opened cursor and the registry after it, for every factory outcome and policy; a cursor that keeps its lease keeps it on this registry and source, with the snapshot it was granted at |
| `AdaptiveSession.OpenedHow` | src/edgar/explorgdb/adaptive/adaptive_session.cpp:419-437 | When an opened cursor is open, on which back end, with which status, consistency and lease, as equivalences in the grant, the policy and the two factories |
| `AdaptiveSession.OpenedWithout` | src/edgar/explorgdb/adaptive/adaptive_session.cpp:33-112 | The text a cursor that could not be opened has, for every way its factory can fail |
| `AdaptiveSession.NextIs` | src/edgar/explorgdb/adaptive/adaptive_session.cpp:285-322 | For either back end: a feature that is there is delivered and nothing changes, unless a fast lease expired; anything else closes the cursor with expiry, the back end's error or the cleanup's, in this order, or with Ok |
| `AdaptiveSession.CloseIs` | src/edgar/explorgdb/adaptive/adaptive_session.cpp:326-373 | Closing is clean, or reports the cleanup's failure, and settles the lease accordingly |
| `AdaptiveSession.FateIsFelt` | src/edgar/explorgdb/adaptive/adaptive_session.cpp:345-372 | A released lease takes one from its source's readers, an abandoned one nothing |
| `AdaptiveSession.CloseIsFinal` | src/edgar/explorgdb/adaptive/adaptive_session.cpp:326-373 | A closed cursor holds no count, and neither closing nor advancing it again changes or delivers anything |
| `AdaptiveSession.NextWithoutFeatureIsFinal` | src/edgar/explorgdb/adaptive/adaptive_session.cpp:307-321 | A call that delivers nothing ends the cursor for good, with status Ok exactly when it neither expired nor failed nor failed to clean up |
| `AdaptiveSession.CountSettledOnce` | src/edgar/explorgdb/adaptive/adaptive_session.cpp:326-437 | Over any history of next and close calls on an opened cursor, the count it was opened with is still held or was given back or abandoned, exactly once in all |
| `AdaptiveSession.FeaturesComeFirst` | src/edgar/explorgdb/adaptive/adaptive_session.cpp:285-322 | In any history of calls, if one delivers a feature then so did every call before it, and the cursor is still as it was opened |
| `AdaptiveSession.SilentExceptionLooksLikeTheEnd` | src/edgar/explorgdb/adaptive/adaptive_session.cpp:299-305 | A back-end exception without text is indistinguishable from the clean end of the data |
| `AdaptiveSession.FastFeatureSound` | src/edgar/explorgdb/adaptive/adaptive_session.cpp:285-307 | A fast cursor delivers exactly what its callback returns unless a Writer is pending at the safe point before it; from the opening until that callback has returned, whatever is announced meanwhile, the source is at one generation with no Writer active, and the feature is Verified |
| `AdaptiveSession.ThrownCloseFailsClosed` | src/edgar/explorgdb/adaptive/adaptive_session.cpp:285-351 | When closing the fast back end throws, in a close or in a next that expired, failed or met the end, the count is abandoned, the status says so, and no later state of any interleaving has an active Writer on that source |
| `RowLayout.BestIsFirstLeast` | src/edgar/explorgdb/reader/format/gdb_table_field_scan.cpp:87-181 | The search returns the first layout, by descending bitmap bytes and present bits, among the fitting ones with the least zero padding, and none exactly when no layout fits |
| `RowLayout.TriedIs` | src/edgar/explorgdb/reader/format/gdb_table_field_scan.cpp:87-100 | Exactly which layouts are tried: every number of bitmap bytes the row has and the nullable fields may need, and every number of bits those bytes hold |
| `RowLayout.FirstLeastIsBest` | src/edgar/explorgdb/reader/format/gdb_table_field_scan.cpp:87-181 | That layout is unique: whatever is first among the least is what the search returns |
| `RowLayout.BestIsVisited` | src/edgar/explorgdb/reader/format/gdb_table_record.cpp:278-287 | No layout tried before the chosen one fills the row exactly: a search that leaves at the first exact fit still reaches it |
| `RowLayout.VisitedUpToBest` | src/edgar/explorgdb/reader/format/gdb_table_feature.cpp:391-398 | What such a search reads: every layout, or if the chosen one fills the row exactly, those up to it and no later one |
| `RowLayout.SameFitsSameBest` | src/edgar/explorgdb/reader/format/gdb_table_record.cpp:145-287 | Two ways of reading choose the same layout if only the layouts one of them visits fit alike |
| `RowLayout.SameBestIff` | src/edgar/explorgdb/reader/format/gdb_table_record.cpp:134-294 | Of two ways of reading, one of which steps over wrapping values the other refuses: it accepts what the other accepts, and they choose the same layout exactly unless some layout that fits only by such a step leaves less padding than the other's choice, or as little and is tried earlier, or the other has none |
| `RowLayout.WrittenIsRead` | src/edgar/explorgdb/reader/format/gdb_table_field_scan.cpp:87-181 | A row written in some layout without padding is read back in it exactly when no layout tried earlier fills the row as well |
| `RowLayout.WholeBitmapWins` | src/edgar/explorgdb/reader/format/gdb_table_field_scan.cpp:92-98 | A row written with its whole bitmap and no padding is read back in exactly that layout |
| `RowLayout.BehindIs` | src/edgar/explorgdb/reader/format/field_layout.h:56-61 | A value that is stepped over ends at the 64-bit sum of place and length, any other at the true one, and is refused exactly if that is outside the row |
| `RowWriter.CellIsRead` | src/edgar/explorgdb/reader/format/field_layout.h:19-65 | Two, four, eight, ten or sixteen bytes of a number, date or UUID, and content behind its length, are read where they were written, by pointer and through the reader |
| `RowWriter.PaddedFits` | src/edgar/explorgdb/reader/format/gdb_table_field_scan.cpp:166-175 | A row that begins as it was written fits that layout exactly if nothing but zeros follows |
| `RowWriter.PaddedIsRead` | src/edgar/explorgdb/reader/format/gdb_table_field_scan.cpp:87-181 | A written row with zeros behind it is always accepted, and in its own layout exactly if no other leaves fewer of them, or as many and is tried earlier |
| `RowWriter.ShortBitmapIsRead` | src/edgar/explorgdb/reader/format/gdb_table_field_scan.cpp:87-181 | A row written with bits for its first nullable fields only, the others being absent, is read as written exactly if no layout tried earlier fills it as well |
| `RowWriter.WrittenIsRecovered` | src/edgar/explorgdb/reader/format/gdb_table_geometry_scan.cpp:92-184 | A row written with a set bit for every absent value and the others' bytes in order: every search comes to a layout with that bitmap, those nulls and those bytes, with nothing undefined |
| `RowWriter.GeometryIsLocated` | src/edgar/explorgdb/reader/format/gdb_table_geometry_scan.cpp:110-184 | Any result that meets the contract of `RowScanners.LocateGeometry` is accepted, null exactly if the geometry is absent, and else points at its bytes |
| `RowWriter.FieldsAreReferred` | src/edgar/explorgdb/reader/format/gdb_table_field_scan.cpp:63-182 | Any references that meet the contracts of `RowScanners.RowRefs.ParseRowRefs` or `RowScanners.ScanRow` say of every field whether it is absent and where its bytes are, and give the FID plus one in 32 bits |
| `RowWriter.GeometryIsHandedOut` | src/edgar/explorgdb/reader/format/gdb_table_geometry_scan.cpp:349-369 | A geometry scan calls back with exactly the bytes written, or null |
| `RowWriter.FieldsAreHandedOut` | src/edgar/explorgdb/reader/format/gdb_table_field_scan.cpp:202-212 | A candidate scan calls back with the row and such references |
| `RowWriter.RecordIsRead` | src/edgar/explorgdb/reader/format/gdb_table_record.cpp:134-294 | The record read of a written row is defined and succeeds, with its bitmap and every value that went in |
| `RowWriter.FeatureIsRead` | src/edgar/explorgdb/reader/format/gdb_table_feature.cpp:221-457 | So does the inner feature read under any projection, and it decodes the bytes written for the geometry |
| `RowWriter.FeatureIsPublished` | src/edgar/explorgdb/reader/format/gdb_table_feature_contract.cpp:22-56 | The public read succeeds exactly if the geometry can be handed out, with every wanted value, nothing where none is wanted, and the marks of the projection |
| `RowWriter.FeatureIsRefused` | src/edgar/explorgdb/reader/format/gdb_table_feature_contract.cpp:31-43 | With a projection out of range it fails, the record marked up to the first such index and its values not masked |
| `RowWriter.NothingIsARecord` | src/edgar/explorgdb/reader/format/gdb_table_record.cpp:93-132 | A row without bytes is a record exactly if every field but the FID and the geometry may be null, and has nothing but its FID |
| `RowWriter.NothingIsAFeature` | src/edgar/explorgdb/reader/format/gdb_table_feature.cpp:126-154 | As a feature its geometry must be nullable as well, and is null |
| `RowLayout.ExactStopsBits` | src/edgar/explorgdb/reader/format/gdb_table_field_scan.cpp:174 | Leaving the inner loop at padding 0 does not change the result |
| `RowLayout.ExactStopsBytes` | src/edgar/explorgdb/reader/format/gdb_table_field_scan.cpp:177 | Nor does leaving the outer loop |
| `RowLayout.SlotsInOrder` | src/edgar/explorgdb/reader/format/gdb_table_field_scan.cpp:105-165 | In an accepted layout values lie behind the bitmap in field order, inside the row and without overlap, and only nullable fields are null |
| `RowLayout.PlaceCountsBits` | src/edgar/explorgdb/reader/format/gdb_table_field_scan.cpp:113-122 | Null flags are taken by the nullable fields in their order, one each |
| `RowScanners.SkipValue` | src/edgar/explorgdb/reader/format/gdb_table_geometry_scan.cpp:39-79 | Skipping a value by pointer: the value's place and the next position, or refusal, for every type |
| `RowScanners.LocateGeometry` | src/edgar/explorgdb/reader/format/gdb_table_geometry_scan.cpp:110-184 | Accepts exactly the rows some layout fits, and gives the geometry's place and null flag of the chosen layout |
| `RowScanners.RowRefs.ParseRowRefs` | src/edgar/explorgdb/reader/format/gdb_table_field_scan.cpp:63-182 | Accepts the same rows and fills every reference from the same layout; a row without bytes is all null; on refusal the output stays as it was |
| `RowScanners.FillRef` | src/edgar/explorgdb/reader/format/gdb_table_field_scan.cpp:125-163 | One field reference by pointer; a raster value is stepped over and reported null |
| `RowScanners.ScanRow` | src/edgar/explorgdb/reader/format/gdb_table.cpp:532-638 | The search inlined in the sequential scan accepts the same rows with the same references; a row nothing fits is still handed out, with no reference left dangling |
| `RecordReader.ReaderAgreesAt` | src/edgar/explorgdb/reader/format/field_layout.h:41-65 | A value is read alike through the reader and by pointer exactly when its prefix has at most ten bytes and, unless it is copied as text, its end does not wrap |
| `RecordReader.WalkAlikeIff` | src/edgar/explorgdb/reader/format/gdb_table_record.cpp:163-268 | Reader and pointers place every field of a layout alike, with nothing undefined, exactly when every prefix the pointers meet is of that kind |
| `RecordReader.PlainEverywhere` | src/edgar/explorgdb/reader/format/gdb_table_record.cpp:183-194 | A row none of whose positions begins an overlong or wrapping prefix meets the condition in every layout, for every schema |
| `RecordReader.ReaderAgrees` | src/edgar/explorgdb/reader/format/gdb_table_record.cpp:134-294 | The exact condition for the reader's search and the pointer search to come to the same layout, or both to none: no layout that fits only by stepping over a wrapping value overtakes the pointers' choice. The reader is then undefined exactly if some layout the pointers visit leads it into an undefined read |
| `RecordReader.PlainAgrees` | src/edgar/explorgdb/reader/format/gdb_table_record.cpp:134-294 | If no prefix met in the layouts the pointer search visits is overlong or wraps, none overtakes, nothing is undefined, and every visited layout is walked alike |
| `RecordReader.PlainRowIff` | src/edgar/explorgdb/reader/format/gdb_table_record.cpp:163-287 | That no such prefix is met holds if and only if reader and pointers walk every layout the pointer search visits alike, with nothing undefined |
| `RecordReader.WrappingRowWraps` | src/edgar/explorgdb/common/binary_reader.h:158 | There is a ten-byte row whose length prefix leads the reader back to its start |
| `RecordReader.WrappedRowIsRead` | src/edgar/explorgdb/reader/format/gdb_table_record.cpp:183-194 | That row, as a geometry, an Int64 and an Int16, is refused by every scan, and the record reader makes a record of it, given byte by byte, with nothing undefined on the way |
| `RecordReader.SkipFieldValue` | src/edgar/explorgdb/reader/format/field_layout.h:41-65 | Stepping over one field through the reader: the next position, refusal or an undefined read |
| `RecordReader.TakeScalar` | src/edgar/explorgdb/reader/format/gdb_table_record.cpp:48-90 | The reads a scalar is made of take up exactly the width the layout reserves for its type, and give its bytes |
| `RecordReader.TakePrefixed` | src/edgar/explorgdb/reader/format/gdb_table_record.cpp:216-262 | A prefixed value through the reader: its place and bytes, the layout given up, or undefined |
| `RecordReader.RecordFields` | src/edgar/explorgdb/reader/format/gdb_table_record.cpp:170-268 | All fields of one layout, in order, with their values |
| `RecordReader.SearchRecord` | src/edgar/explorgdb/reader/format/gdb_table_record.cpp:145-293 | The record search with its early exits returns the record of the best layout, none if there is none, and is undefined exactly if some layout it visits leads into an undefined read |
| `RecordReader.ZeroFlagsSay` | src/edgar/explorgdb/reader/format/gdb_table_record.cpp:93-132 | The bitmap made up for a row without bytes flags exactly the nullable fields other than the FID |
| `RecordReader.MaterializeZeroLengthRecord` | src/edgar/explorgdb/reader/format/gdb_table_record.cpp:93-132 | A row without bytes becomes a record exactly when every field but FID and geometry may be null |
| `RecordReader.ParseRecordWithoutGeometry` | src/edgar/explorgdb/reader/format/gdb_table_record.cpp:134-294 | The whole record read, with and without bytes; undefined exactly where the search is |
| `RecordReader.RecordAgreesWithScans` | src/edgar/explorgdb/reader/format/gdb_table_record.cpp:134-294 | For every row with bytes: the read comes to the scans' layout, with its values, or is refused by both, if and only if no layout that fits only by stepping over a wrapping value overtakes the scans' choice and no visited layout leads into an undefined read |
| `FeatureReader.FeatureFields` | src/edgar/explorgdb/reader/format/gdb_table_feature.cpp:273-380 | All fields of one layout under a projection, and the geometry met on the way |
| `FeatureReader.SearchFeature` | src/edgar/explorgdb/reader/format/gdb_table_feature.cpp:244-400 | The projecting search returns record and geometry slice of the best layout, none if there is none, and is undefined exactly if some layout it visits leads into an undefined read |
| `FeatureReader.MetSays` | src/edgar/explorgdb/reader/format/gdb_table_feature.cpp:273-380 | Of several geometry fields the index of the last is kept, the place of the last that has bytes, and whether any was null |
| `FeatureReader.MaterializeZeroLengthRecord` | src/edgar/explorgdb/reader/format/gdb_table_feature.cpp:126-154 | Without bytes a feature needs every field but the FID nullable, the geometry included |
| `FeatureReader.ReadFeatureInternal` | src/edgar/explorgdb/reader/format/gdb_table_feature.cpp:221-457 | The inner read: complete, failed with a geometry to report, or failed; undefined exactly where the search is |
| `FeatureReader.Mark` | src/edgar/explorgdb/reader/format/gdb_table_feature_contract.cpp:32-36 | Marks exactly the projected indices, or those before the first that is out of range, which it reports |
| `FeatureReader.ReadFeatureByFid` | src/edgar/explorgdb/reader/format/gdb_table_feature_contract.cpp:22-56 | The public read: masked to the projection, the geometry slot an empty text where wanted; a projection out of range fails and leaves the record marked up to there and unmasked; undefined exactly where the search is |
| `FeatureReader.FailureKeepsRecord` | src/edgar/explorgdb/reader/format/gdb_table_feature_contract.cpp:22-56 | A read that does not come through leaves the caller's record as it was, but for the geometry's slot where it is wanted |
| `FeatureReader.SlotAlikeIff` | src/edgar/explorgdb/reader/format/gdb_table_feature.cpp:311-345 | A value is placed alike under a projection and as a whole exactly unless it is a text or blob that the projection leaves out and its prefix wraps past 64 bits |
| `FeatureReader.AsWholeIff` | src/edgar/explorgdb/reader/format/gdb_table_feature.cpp:273-380 | The fields of a layout are placed alike under a projection and as a whole, one after another, exactly when no such value is met in it; it is then undefined in both reads or in neither |
| `FeatureReader.SameLayoutIff` | src/edgar/explorgdb/reader/format/gdb_table_feature.cpp:244-400 | A projection accepts what the whole read accepts, and comes to its layout exactly unless some layout in which the projection steps over a text or blob that ends past the row overtakes the whole read's choice |
| `FeatureReader.WrapFreeNeverOvertaken` | src/edgar/explorgdb/reader/format/gdb_table_feature.cpp:311-398 | None overtakes, and the projection is undefined exactly where the whole read is, if no wrapping value is left out in the layouts the whole read visits |
| `FeatureReader.WrapFreeEverywhere` | src/edgar/explorgdb/reader/format/gdb_table_feature.cpp:311-345 | A row at none of whose positions a wrapping prefix begins is of that kind for every schema and every projection |
| `FeatureReader.ProjectionIsMask` | src/edgar/explorgdb/reader/format/gdb_table_feature_contract.cpp:31-55 | For every row and every projection in range: same layout, success and geometry as the whole feature, and its record with the unwanted values emptied, if and only if no layout that fits only by stepping over a left-out value overtakes the whole read's choice; always so on a row without bytes |
| `FeatureReader.ProjectionReadsMore` | src/edgar/explorgdb/reader/format/gdb_table_feature.cpp:311-329 | A row of a text, an Int64 and an Int16 whose read fails as a whole and succeeds under the projection that leaves the text out, with nothing undefined in either |
| `FeatureReader.FeatureIsRecord` | src/edgar/explorgdb/reader/format/gdb_table_feature_contract.cpp:44-55 | With at most one geometry field the whole feature is read exactly when the record is read and the geometry can be handed out, and the records are equal |
| `FeatureReader.ZeroAlike` | src/edgar/explorgdb/reader/format/gdb_table_feature.cpp:126-154 | Without bytes the feature is stricter than the record by exactly the nullability of the geometry; flags and values otherwise agree |
| `FeatureReader.FeatureDecodesScannedBytes` | src/edgar/explorgdb/reader/format/gdb_table_feature.cpp:404-456 | For every row with bytes and every projection: the feature is read in the scan's layout and its geometry decoded from exactly the bytes the scan hands out, or both refuse the row, if and only if no layout that fits only by stepping over a wrapping value overtakes the scan's choice and no visited layout leads into an undefined read |
| `Delivery.BatchesPartition` | src/edgar/explorgdb/reader/format/gdb_table_geometry_scan.cpp:294-309 | The batches hold the rows in their order, each once, lie inside the file within the limit, and have the four bytes of each row's size inside |
| `Delivery.BatchesAreFull` | src/edgar/explorgdb/reader/format/gdb_table_geometry_scan.cpp:280-309 | Every batch begins with its first row and is as long as limit and file allow, and a new one begins only with a row whose size is not inside the one before |
| `Delivery.BatchedIsPrefix` | src/edgar/explorgdb/reader/format/gdb_table_geometry_scan.cpp:598-614 | For any window the batched scan makes the first of the mapped scan's calls, and all of them exactly unless a row's size prefix is cut off by the end of the file and the mapped scan gets past the batches closed before that row |
| `Delivery.CountsAgree` | src/edgar/explorgdb/reader/format/gdb_table_geometry_scan.cpp:612-633 | Cut-off prefixes or not, the two counts are equal exactly unless the callback stops, after having gone on, past the batches that were closed before the last or cut-off row |
| `Delivery.MissingPrefixLosesBatch` | src/edgar/explorgdb/reader/format/gdb_table_geometry_scan.cpp:598-604 | In any file with a row and an offset in its last three bytes, the mapped scan delivers the row before it, the batched scan nothing |
| `Delivery.EndedEarly` | src/edgar/explorgdb/reader/format/gdb_table_geometry_scan.cpp:605-608 | A batch that ends the scan before the last one decides calls and count as the mapped scan would |
| `Delivery.SortRowsSorts` | src/edgar/explorgdb/reader/format/gdb_table_geometry_scan.cpp:654-659 | Physical order is a permutation sorted by offset and FID |
| `Delivery.SortedAlready` | src/edgar/explorgdb/reader/format/gdb_table_field_scan.cpp:254-259 | Sorting leaves a list as it is exactly when it is in that order |
| `TableFile.RowIsIn` | src/edgar/explorgdb/reader/format/gdb_table_geometry_scan.cpp:374-381 | In a file written as a header and rows behind their four-byte sizes, lowest byte first, every row is found at its offset with all of its bytes |
| `TableFile.RowsAreHandedOut` | src/edgar/explorgdb/reader/format/gdb_table_geometry_scan.cpp:463-529 | Rows in a file, whichever and in whatever order, are called back with one after another as they were written, up to the end, the callback that stops, or a row that cannot be rendered |
| `TableFile.TableIsScanned` | src/edgar/explorgdb/reader/format/gdb_table_geometry_scan.cpp:371-633 | Over a map or in batches a written table is handed out so, by ascending FID, and the count is that of the callbacks that said go on |
| `TableFile.EveryRowIsHandedOut` | src/edgar/explorgdb/reader/format/gdb_table_geometry_scan.cpp:371-384 | A callback that always goes on is called exactly once for every FID that has a row |
| `TableFile.EligibleIff` | src/edgar/explorgdb/reader/format/gdb_table_geometry_scan.cpp:636-662 | Candidates are accepted exactly if each has a row |
| `TableFile.CandidatesAreScanned` | src/edgar/explorgdb/reader/format/gdb_table_field_scan.cpp:186-296 | Candidates in any order are handed out as they were written, by ascending FID, with a map or without, for geometries and for fields |
| `TableFile.GeometriesComeBack` | src/edgar/explorgdb/reader/format/gdb_table_geometry_scan.cpp:349-633 | From values to a file and back: a whole scan makes one call per row, with the geometry that was written, or null |
| `TableFile.CutTableIsScanned` | src/edgar/explorgdb/reader/format/gdb_table_geometry_scan.cpp:374-381 | A table whose file is cut off hands out the rows in front of the cut; inside a row the scan then fails and counts 0, in front of a row it ends as if there were no more |
| `GeometryScan.GeometryScanner.EmitRow` | src/edgar/explorgdb/reader/format/gdb_table_geometry_scan.cpp:349-369 | One row is one callback: null for a row without bytes or without a fitting layout, else the located geometry |
| `GeometryScan.NullIsSaid` | src/edgar/explorgdb/reader/format/gdb_table_geometry_scan.cpp:349-369 | A geometry is called null exactly if the row has no bytes, fits no layout, or has the field null |
| `GeometryScan.GeometryScanner.ScanMapped` | src/edgar/explorgdb/reader/format/gdb_table_geometry_scan.cpp:371-384 | The mapped scan delivers the rows in FID order until the callback stops or the file is not as it should be, and counts 0 in the latter case |
| `GeometryScan.GeometryScanner.RowBytes` | src/edgar/explorgdb/reader/format/gdb_table_geometry_scan.cpp:473-522 | A row is read from its window or, where it spills over, from the file: the same bytes, and refused exactly when its size is invalid |
| `GeometryScan.GeometryScanner.ProcessBatch` | src/edgar/explorgdb/reader/format/gdb_table_geometry_scan.cpp:463-529 | A batch delivers its rows as if they were read from the map |
| `GeometryScan.GeometryScanner.AddRow` | src/edgar/explorgdb/reader/format/gdb_table_geometry_scan.cpp:605-609 | A row joins the open batch or closes it and begins the next |
| `GeometryScan.GeometryScanner.ScanBatched` | src/edgar/explorgdb/reader/format/gdb_table_geometry_scan.cpp:423-633 | The scan without a map: calls and count, whatever the window |
| `GeometryScan.MapOrBatches` | src/edgar/explorgdb/reader/format/gdb_table_geometry_scan.cpp:371-633 | Over any table of offsets and for any window, when the scan over a map and the scan in batches make the same calls, and when they return the same count, as an equivalence each |
| `GeometryScan.GeometryScanner.BuildSparseBatches` | src/edgar/explorgdb/reader/format/gdb_table_geometry_scan.cpp:294-309 | The loop builds exactly the partition of `Delivery.BatchesPartition` |
| `GeometryScan.GeometryScanner.ScanCandidates` | src/edgar/explorgdb/reader/format/gdb_table_geometry_scan.cpp:636-892 | Eligible candidates are delivered in physical order; anything that stops the scan makes the count 0; ineligible ones deliver nothing |
| `FieldScan.FieldScanner.EmitCandidate` | src/edgar/explorgdb/reader/format/gdb_table_field_scan.cpp:202-212 | A row nothing fits stops the scan without a callback |
| `FieldScan.NothingIsReferred` | src/edgar/explorgdb/reader/format/gdb_table_field_scan.cpp:74-85 | A row without bytes is handed out with every field null |
| `FieldScan.FieldScanner.CheckCandidates` | src/edgar/explorgdb/reader/format/gdb_table_field_scan.cpp:214-228 | Accepts exactly candidates with a size prefix in the file, and finds whether their offsets ascend |
| `FieldScan.FieldScanner.ScanFieldCandidates` | src/edgar/explorgdb/reader/format/gdb_table_field_scan.cpp:186-296 | Candidates are delivered directly or in physical order, with the references of `RowRefs`, and counted |
| `FieldScan.DirectIsSorted` | src/edgar/explorgdb/reader/format/gdb_table_field_scan.cpp:230-259 | The direct path equals the sorted one exactly when candidates sharing an offset come in FID order |
| `FieldScan.AscendingCandidates` | src/edgar/explorgdb/reader/format/gdb_table_field_scan.cpp:230-248 | For ascending candidates the two paths always agree |
| `Varint.VaruintRoundTrip` | src/edgar/explorgdb/common/varint.h:55-64 | Decoding an encoding followed by any bytes gives the value and stops exactly at its end |
| `Varint.VarintRoundTrip` | src/edgar/explorgdb/common/varint.cpp:36-65 | The same for every signed value but the minimum, in at most ten bytes |
| `Varint.VaruintFits` | src/edgar/explorgdb/common/varint.h:44-48 | One to ten bytes for every 64-bit value |
| `Varint.VaruintIsShortest` | src/edgar/explorgdb/common/varint.h:55-64 | No byte string that reads as a value is shorter than its encoding |
| `Varint.StreamRoundTrip` | src/edgar/explorgdb/common/varint.cpp:23-32 | A concatenation of encodings decodes to the values written |
| `Varint.StreamsAreUnique` | src/edgar/explorgdb/common/varint.cpp:23-32 | Different lists of values never give the same bytes |
| `Varint.OneAndMinusOne` | src/edgar/explorgdb/common/varint.cpp:36-51 | +1 and -1 are 0x01 and 0x41, not the bytes the header comments give |
| `Varint.TwoByteNumbers` | src/edgar/explorgdb/common/varint.cpp:23-65 | The exact bytes of every number of two: low bits first, continuation bit 128, sign bit 64 |
| `Varint.EncodeVaruint` | src/edgar/explorgdb/common/varint.cpp:23-32 | The vector form is the encoding |
| `Varint.EncodeVaruintTo` | src/edgar/explorgdb/common/varint.h:55-64 | The buffer form writes the same bytes at its place and nothing else |
| `Varint.VaruintEncodedLen` | src/edgar/explorgdb/common/varint.h:80-87 | The exact length of the encoding |
| `Varint.EncodeVarint` | src/edgar/explorgdb/common/varint.cpp:36-65 | The signed vector form is the encoding, for every value but the minimum |
| `Varint.EncodeVarintTo` | src/edgar/explorgdb/common/varint.h:94-122 | The signed buffer form writes the same bytes at its place and nothing else |
| `BinaryReader.ReadVaruintChecked` | src/edgar/explorgdb/reader/format/gdb_table_field_scan.cpp:21-33 | The pointer decoder: value and next position for prefixes of at most ten bytes, refusal otherwise |
| `BinaryReader.BinaryReader.NextVaruint` | src/edgar/explorgdb/common/binary_reader.cpp:134-145 | The reader gives the same value and position, throws where the data ends, and beyond ten bytes shifts undefined |
| `BinaryReader.BinaryReader.NextVarint` | src/edgar/explorgdb/common/binary_reader.cpp:151-164 | The signed reader inverts the signed encoding wherever the magnitude has 63 bits |
| `BinaryReader.BinaryReader.Skip` | src/edgar/explorgdb/common/binary_reader.h:151 | Skipping adds before it compares: the sum may wrap |
| `BinaryReader.BinaryReader.NextBytes` | src/edgar/explorgdb/common/binary_reader.cpp:168-173 | A block of bytes, an exception past the end, and undefined where the sum wrapped |
| `BinaryReader.DecodersAgree` | src/edgar/explorgdb/reader/format/gdb_table_field_scan.cpp:21-33 | The pointer decoder gives up on a prefix exactly when ten continued bytes are there |
| `Utf16.UnitIsUtf8` | src/edgar/explorgdb/common/utf16.cpp:31-43 | A unit's bytes are UTF-8 in the sense of section 3 of RFC 3629 exactly for non-surrogates, and stand for the unit |
| `Utf16.UnitsComeBack` | src/edgar/explorgdb/common/utf16.cpp:21-30 | A text that lies in memory with the low byte of each unit first is read unit by unit, whatever follows it |
| `Utf16.Utf8IsUnique` | src/edgar/explorgdb/common/utf16.cpp:31-43 | Every one-, two- or three-byte sequence of that section is what the encoder writes for its character |
| `Utf16.LeadSays` | src/edgar/explorgdb/common/utf16.cpp:52-74 | What the decoder makes of any first byte, whole, truncated or stray |
| `Utf16.FourBytesVanish` | src/edgar/explorgdb/common/utf16.cpp:70-74 | A four-byte character is dropped whole and what follows is read as if it were not there |
| `Utf16.Utf8RoundTrip` | src/edgar/explorgdb/common/utf16.cpp:48-81 | Decoding what was encoded gives every unit back, surrogates included |
| `Utf16.TextRoundTrip` | src/edgar/explorgdb/common/utf16.cpp:21-81 | Through UTF-8 and back, a text is its units before the first zero |
| `Utf16.Utf16LeToUtf8` | src/edgar/explorgdb/common/utf16.cpp:21-46 | The loop writes the UTF-8 of the units before the first zero |
| `Utf16.Utf8ToUtf16` | src/edgar/explorgdb/common/utf16.cpp:48-81 | The loop decodes any byte sequence as its step function does |
| `Utf16.ThroughUtf8` | src/edgar/explorgdb/common/utf16.cpp:21-81 | Both loops in a row return the units before the first zero |
| `Calendar.DaysRoundTrip` | src/edgar/explorgdb/common/ole_date.cpp:21-34 | Every integer day number gives a date of the Gregorian calendar whose number it is |
| `Calendar.DateRoundTrip` | src/edgar/explorgdb/adaptive/adaptive_gdal_backend.cpp:183-197 | Every valid date comes back from its number |
| `Calendar.SuccessorNumber` | src/edgar/explorgdb/adaptive/adaptive_gdal_backend.cpp:183-197 | The next day of the calendar, leap rule and all, has the next number |
| `Calendar.NextDay` | src/edgar/explorgdb/common/ole_date.cpp:21-34 | The next number is the next day of the calendar |
| `OleDate.NearestSecond` | src/edgar/explorgdb/common/ole_date.cpp:71-91 | Any real value is taken to the second nearest to its instant, whatever its sign |
| `OleDate.ExactSeconds` | src/edgar/explorgdb/common/ole_date.cpp:71-91 | Whole seconds are met exactly, before 1899-12-30 and before 1970 too |
| `OleDate.HalfSeconds` | src/edgar/explorgdb/common/ole_date.cpp:71-91 | A value that lies exactly between two seconds goes away from 1899-12-30 |
| `OleDate.SplitIsFloor` | src/edgar/explorgdb/common/ole_date.cpp:41-44 | The split's remainder is in 0..86399 for any number of seconds, and its last correction never runs |
| `OleDate.EverySecondIsAMoment` | src/edgar/explorgdb/common/ole_date.cpp:36-52 | Every second is a valid date and time that counts back to it |
| `OleDate.OleRoundTrip` | src/edgar/explorgdb/adaptive/adaptive_gdal_backend.cpp:199-215 | Year, month, day, hour, minute and second stored in a field are read back, as far as the field's type keeps them |
| `TablxCache.EvictKeepsLongestPrefix` | src/edgar/explorgdb/reader/format/gdb_tablx_cache.cpp:148-160 | Making room keeps the longest run of most recent entries that leaves room |
| `TablxCache.HitMovesToFront` | src/edgar/explorgdb/reader/format/gdb_tablx_cache.cpp:107-146 | A hit takes its entry to the front and leaves the others in their order; an update does so with the new value |
| `TablxCache.MissLeavesAll` | src/edgar/explorgdb/reader/format/gdb_tablx_cache.cpp:107-170 | A miss changes nothing; a new entry comes in front of as many of the most recent ones as leave it room; one over the budget is not taken |
| `TablxCache.AlwaysOk` | src/edgar/explorgdb/reader/format/gdb_tablx_cache.cpp:107-182 | After any history of calls: distinct keys and at most 16 entries |
| `TablxCache.GetReturnsLastAccepted` | src/edgar/explorgdb/reader/format/gdb_tablx_cache.cpp:107-121 | A get is a miss or the value last accepted for its key, and a hit right after an accepted put |
| `TablxCache.BudgetAfterPut` | src/edgar/explorgdb/reader/format/gdb_tablx_cache.cpp:135-169 | An accepted insert always meets the byte budget; an update meets it exactly when the rest and the new value fit, since it evicts nothing |
| `TablxCache.UpdateOverBudget` | src/edgar/explorgdb/reader/format/gdb_tablx_cache.cpp:135-146 | Three puts whose last, an update, leaves twice the budget in the cache |
| `TablxCache.TablxCache.Get` | src/edgar/explorgdb/reader/format/gdb_tablx_cache.cpp:107-121 | A hit moves its key to the front and returns the value; a miss changes nothing |
| `TablxCache.TablxCache.Put` | src/edgar/explorgdb/reader/format/gdb_tablx_cache.cpp:127-170 | Map, list and byte count after a put are those of the recency list |
| `TablxCache.TablxCache.Clear` | src/edgar/explorgdb/reader/format/gdb_tablx_cache.cpp:177-182 | Nothing is left |
| `FeatureCursor.MachineKept` | src/edgar/explorgdb/reader/api/feature_cursor.cpp:146-348 | Through any call the cursor is Ready exactly when it holds the engine's lease, and Failed is absorbing |
| `FeatureCursor.OthersLeaseUntouched` | src/edgar/explorgdb/reader/api/feature_cursor.cpp:286-299 | A cursor without the lease never takes or frees the one another cursor holds |
| `FeatureCursor.NextTakesFirst` | src/edgar/explorgdb/reader/api/feature_cursor.cpp:146-195 | A successful next delivers the first FID that remains and leaves the rest; with none left the cursor is exhausted, or fails if positions beyond the 32-bit FIDs are |
| `FeatureCursor.DeliveryIsEarned` | src/edgar/explorgdb/reader/api/feature_cursor.cpp:146-195 | A FID is delivered only by a ready cursor on its own engine that is not cancelled, and only if its feature was read as it should |
| `FeatureCursor.NextFailsIff` | src/edgar/explorgdb/reader/api/feature_cursor.cpp:146-195 | A ready cursor fails exactly if it is cancelled, its engine was reopened, its feature was not read as it should, or only positions beyond the 32-bit FIDs are left; it then delivers nothing and frees its lease |
| `FeatureCursor.FailedReadIsPassed` | src/edgar/explorgdb/reader/api/feature_cursor.cpp:173-182 | A failed read leaves the cursor behind the FID |
| `FeatureCursor.DrainDeliversAll` | src/edgar/explorgdb/reader/api/feature_cursor.cpp:301-328 | A drained cursor has delivered every remaining FID once, in order, and is exhausted |
| `FeatureCursor.SequentialIsAllActive` | src/edgar/explorgdb/reader/api/feature_cursor.cpp:314-327 | What a sequential cursor has left is every active FID from its position on, ascending |
| `FeatureCursor.TargetKeepsTheRest` | src/edgar/explorgdb/reader/api/feature_cursor.cpp:201-250 | Where a move ends, exactly the FIDs not below the target remain, on sorted lists and sequentially |
| `FeatureCursor.MoveFindsTheRest` | src/edgar/explorgdb/reader/api/feature_cursor.cpp:197-254 | After a move, even of an exhausted cursor, the next FID is the least one not below the target, and the cursor is ready exactly when there is one |
| `FeatureCursor.MoveFailsIff` | src/edgar/explorgdb/reader/api/feature_cursor.cpp:197-254 | A move fails exactly if the engine was reopened, another cursor is active, or only positions beyond the 32-bit FIDs are left; what the cursor held is freed, and what another holds is not |
| `FeatureCursor.RemoveDuplicates` | src/edgar/explorgdb/reader/api/feature_cursor.cpp:491-495 | Keeps each FID where it first occurs |
| `FeatureCursor.KeepFirstFacts` | src/edgar/explorgdb/reader/api/feature_cursor.cpp:491-495 | The same FIDs, each once |
| `FeatureCursor.KeepFirstOrder` | src/edgar/explorgdb/reader/api/feature_cursor.cpp:491-495 | In the order of their first occurrence |
| `FeatureCursor.SortUnique` | src/edgar/explorgdb/reader/api/feature_cursor.cpp:483-489 | The sorted list without its repeats |
| `FeatureCursor.SortedUniqueFacts` | src/edgar/explorgdb/reader/api/feature_cursor.cpp:483-489 | That is the same FIDs, ascending, each once |
| `FeatureCursor.OpenThenDrain` | src/edgar/explorgdb/reader/api/feature_cursor.cpp:406-524 | Opened and read to its end, a cursor has delivered everything asked for, once each and in order, and is exhausted |
| `FeatureCursor.OpenedReady` | src/edgar/explorgdb/reader/api/feature_cursor.cpp:442-524 | A cursor is ready exactly if there is a row or a FID to walk, and else exhausted with the engine as free as before |
| `FeatureCursor.RefusedOpen` | src/edgar/explorgdb/reader/api/feature_cursor.cpp:406-424 | A request that cannot be answered, or that comes while a cursor is active, disturbs nobody and gives a cursor that never delivers or moves |
| `FeatureCursor.WholeTableIsActive` | src/edgar/explorgdb/reader/api/feature_cursor.cpp:442-468 | For the whole table that is exactly the active FIDs, ascending |
| `FeatureCursor.OpenCursor` | src/edgar/explorgdb/reader/api/feature_cursor.cpp:406-524 | Opening: an unopened cursor over a table that is not open, under another active cursor or after a failed query, exhausted at once over nothing, else ready with the engine's lease over the deduplicated list |
| `FeatureCursor.CursorControl.RegisterFeatureCursor` | src/edgar/explorgdb/reader/query/query_engine.cpp:166-174 | One holder at a time, fresh nonzero generations across the wrap |
| `FeatureCursor.CursorControl.ReleaseFeatureCursor` | src/edgar/explorgdb/reader/query/query_engine.cpp:176-182 | Only the holder frees the lease |
| `FeatureCursor.LeaseIsNew` | src/edgar/explorgdb/reader/query/query_engine.cpp:166-174 | A lease is given exactly if none is out, under the number after the last, across the wrap |
| `FeatureCursor.LeaseIsFreed` | src/edgar/explorgdb/reader/query/query_engine.cpp:176-182 | It is freed by its own number and by no other |
| `FeatureCursor.FeatureCursorImpl.Open` | src/edgar/explorgdb/reader/api/feature_cursor.cpp:98-140 | An empty list or table is exhausted at once and gives its lease back |
| `FeatureCursor.FeatureCursorImpl.NextFid` | src/edgar/explorgdb/reader/api/feature_cursor.cpp:301-328 | The next candidate or active FID, the end, or failure beyond the 32-bit FIDs |
| `FeatureCursor.FeatureCursorImpl.EnsureLease` | src/edgar/explorgdb/reader/api/feature_cursor.cpp:286-299 | A lease is kept or taken anew; another holder fails the cursor |
| `FeatureCursor.FeatureCursorImpl.Next` | src/edgar/explorgdb/reader/api/feature_cursor.cpp:146-195 | One call of next: cursor, engine lease and delivered FID, for every outcome of the read |
| `FeatureCursor.FeatureCursorImpl.MoveTo` | src/edgar/explorgdb/reader/api/feature_cursor.cpp:197-254 | One call of move_to: cursor, engine lease and answer |
| `FeatureCursor.LowerBound` | src/edgar/explorgdb/reader/api/feature_cursor.cpp:203-210 | The binary search finds the first FID not below the target |
| `FeatureCursorRuns.InvKept` | src/edgar/explorgdb/reader/api/feature_cursor.cpp:146-348 | Opening, advancing, moving or destroying any cursor, or reopening the engine, keeps at most one holder of the lease |
| `FeatureCursorRuns.OneReadyCursor` | src/edgar/explorgdb/reader/query/query_engine.cpp:166-199 | Over any run with any number of cursors at most one is ready, the lease is taken exactly while one is, and the engine is never reopened under a ready cursor |
| `FeatureCursorRuns.ReopenedLeavesNone` | src/edgar/explorgdb/reader/query/query_engine.cpp:193-199 | Reopening takes the next nonzero number, after which no cursor of before delivers or moves |
| `CourseGraph.Validate` | tools/learning/course_core.py:132-156 | Accepts exactly the graphs whose prerequisites are all known and that have no cycle; otherwise names a module with an unknown prerequisite or one that lies on a cycle |
| `CourseGraph.ValidatePrerequisites` | tools/learning/course_core.py:132-137 | Names a module with an unknown prerequisite exactly when there is one |
| `CourseGraph.AcyclicCheck.Visit` | tools/learning/course_core.py:144-153 | The depth-first visit finishes its module after all its prerequisites, or shows a cycle through the module it names |
| `CourseGraph.OrderedIsAcyclic` | tools/learning/course_core.py:140-156 | An order with every prerequisite before its module leaves no cycle |
| `CourseGraph.OrderOf` | tools/learning/course_core.py:140-156 | A graph without cycles has such an order, which is what makes the two status functions end |
| `CourseGraph.UnlockedIff` | tools/learning/course_core.py:348-353 | A module is unlocked exactly when every prerequisite is passed |
| `CourseGraph.PassedIff` | tools/learning/course_core.py:348-353 | A module is passed exactly if it is delivered, its prerequisites are passed, it is stored as Provisional or Mastered, and every gate holds |
| `CourseGraph.StoredStateShows` | tools/learning/course_core.py:814-830 | What is shown of an unlocked module: what is stored, NotStarted without it, Learning where a gate fails |
| `CourseGraph.LockedIff` | tools/learning/course_core.py:814-822 | A module is locked exactly when it is delivered and one of its prerequisites is not passed, or its stored state says so |
| `CourseGraph.OpenModulesStandOnPassedOnes` | tools/learning/course_core.py:348-353 | A module that is neither planned nor locked has all its prerequisites passed, along every chain |
| `CourseGraph.StatusIgnoresOrder` | tools/learning/course_core.py:814-830 | The status does not depend on the order used to show that it ends |

## Left out

- GDAL and OGR calls, memory maps, file descriptors, file stamps, the Windows sliding maps and overlapped reads, the server, the browser and the command line: back ends are arbitrary outcomes, and a file is a sequence of bytes that reads always reach.
- Geometry decoding and WKB writing: any function from bytes to a usable or unusable value.
- `peek_geometry_blob`: it breaks ties differently, and one layout that throws ends its search.
- The six-byte offsets of the `.gdbtablx` file, and the fixed-width little-endian reads of `BinaryReader`: single formulas.
- FinishPrepare: the time waited is not reported; `prepare_external_update` is two blocks with the other clients in between, and ends drained or not.
- Generations and pending events are unbounded numbers; the token counter wraps at 64 bits, and `CoordinationRuns.RetiredForever` holds until it does.
- ReadFastPath: its blocks follow each other directly; interference between them is in `FastReadSound`.
- Read: its contract is about blocks that follow each other directly; interference during the executor is in `FastReadSound` and `FastFeatureSound`.
- Messages of exceptions and errors other than those the cursor keeps, and time measurements.
- BinaryReader.NextVarint: reads that leave 63 bits of magnitude count as undefined, the wrap of the signed product is not modelled.
- Calendar arithmetic is over unbounded integers, so the 32-bit year is not modelled; formatting to text is not either.
- TakeScalar: a value stays its type and raw bytes, no numbers or UUID text are made of them.
- OleRoundTrip: dates are exact reals and whole seconds, the rounding of doubles is not modelled.
- ScanRow: for a row that no layout fits, the references left over from the last layout tried are only said to be consistent, because nothing promises more.
- The file-level loop of the sequential scan; only the search and the references of each row.
- Moving a cursor (`AdaptiveFeatureCursor`'s move operations) and the query that fills a feature cursor's list: it succeeds with some list or fails.
- Vectors that grow are sequences the methods reassign; the exact capacity and the aliasing of references into a row buffer that the next row overwrites are not modelled.
- The course engine's storage and gates beyond the state a module's status reads, and Python's recursion limit.
