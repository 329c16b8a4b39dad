/**
 * Reads routed between the fast reader and GDAL, and the cursor that keeps a lease while it is open.
 *
 * Back ends are arbitrary: an executor or callback may return anything or throw.  Between two blocks of
 * a read the registry may change in any way module CoordinationRuns allows, so the results here are
 * functions of the registry as it is found at each block.
 */
module AdaptiveSession {
  import opened Bytes
  import opened Coordination
  import opened CoordinationRuns
  import opened SourceStates

  datatype Policy = AnswerBusy | ReadUnverified
  datatype Backend = NoBackend | FastGdb | GdalOpenFileGDB
  datatype Consistency = NotApplicable | Verified | UnverifiedConcurrentRead
  datatype ReadStatus = ReadOk | SourceBusy | ReaderExpired | FastBackendReadFailed | GdalOpenFailed | GdalReadFailed

  datatype FailureKind = OpenFailure | ReadFailure

  /** What calling a back end came to; a missing executor is a failure the session makes up itself. */
  datatype Outcome<+T> =
    | NotConfigured
    | Success(result: T)
    | Failure(kind: FailureKind, message: string)
    | Threw(message: string)

  datatype ReadResult<+T> = ReadResult(
    status: ReadStatus,
    backend: Backend,
    consistency: Consistency,
    result: Option<T>,
    generationBefore: nat,
    generationAfter: nat,
    writerPendingSeen: bool,
    writerActiveSeen: bool,
    fastError: string,
    gdalError: string)

  function EmptyResult<T>(): ReadResult<T> {
    ReadResult(SourceBusy, NoBackend, NotApplicable, None, 0, 0, false, false, "", "")
  }

  const EXPIRED_MESSAGE := "fast reader generation changed during query; discard and reopen"

  function FastMessage<T>(o: Outcome<T>): string
    requires !o.Success?
  {
    if o.NotConfigured? then "fast executor is not configured" else o.message
  }

  function GdalMessage<T>(o: Outcome<T>): string
    requires !o.Success?
  {
    if o.NotConfigured? then "fresh GDAL executor is not configured" else o.message
  }

  function GdalFailureStatus<T>(o: Outcome<T>): ReadStatus {
    if o.NotConfigured? || (o.Failure? && o.kind == OpenFailure) then GdalOpenFailed else GdalReadFailed
  }

  /** A fast read's answer, given the registry once its executor has returned, and again when it asks for pending writers. */
  function FastResult<T>(r: Registry, later: Registry, p: Path, lease: Snapshot, o: Outcome<T>): (output: ReadResult<T>)
    ensures output.consistency == Verified <==> output.status == ReadOk
    ensures output.status == ReadOk <==> output.result.Some?
    ensures output.status == ReaderExpired <==>
      (Observe(r, p).generation != lease.generation || Observe(r, p).writerActive || !Observe(r, p).sourceVerified)
  {
    var during := Observe(r, p);
    var output := EmptyResult<T>().(
      backend := FastGdb,
      generationBefore := lease.generation,
      generationAfter := during.generation,
      writerPendingSeen := PendingObserved(later, p, lease.pendingEvents) || during.writerPending,
      writerActiveSeen := during.writerActive);
    if lease.generation != during.generation || during.writerActive || !during.sourceVerified then
      output.(status := ReaderExpired, fastError := EXPIRED_MESSAGE)
    else if o.Success? then output.(status := ReadOk, consistency := Verified, result := Some(o.result))
    else output.(status := FastBackendReadFailed, fastError := FastMessage(o))
  }

  function GdalResult<T>(before: Entry, after: Entry, o: Outcome<T>): (output: ReadResult<T>)
    ensures output.consistency == UnverifiedConcurrentRead
    ensures output.status == ReadOk <==> o.Success?
  {
    var output := EmptyResult<T>().(
      backend := GdalOpenFileGDB,
      consistency := UnverifiedConcurrentRead,
      generationBefore := before.generation,
      generationAfter := after.generation,
      writerPendingSeen := before.writerPending || after.writerPending || after.pendingEvents != before.pendingEvents,
      writerActiveSeen := before.writerActive || after.writerActive);
    if o.Success? then output.(status := ReadOk, result := Some(o.result))
    else output.(status := GdalFailureStatus(o), gdalError := GdalMessage(o))
  }

  method ReadFastPath<T>(coordinator: InProcessGdbCoordinator, p: Path, o: Outcome<T>, lease: FastReaderLease)
    returns (output: ReadResult<T>)
    requires lease.Valid() && lease.counted && lease.registry == coordinator.registry && lease.path == p
    modifies lease, coordinator.registry
    ensures var r := old(coordinator.registry.View());
      output == FastResult(r, r, p, old(Snapshot(lease.generation, lease.pendingEvents)), o)
    ensures coordinator.registry.View() == ReleaseBlock(old(coordinator.registry.View()), p)
    ensures lease.Valid() && !lease.counted
  {
    output := EmptyResult<T>().(backend := FastGdb, generationBefore := lease.generation);
    var during := coordinator.State(p);
    output := output.(generationAfter := during.generation);
    var observed := lease.WriterPendingObserved();
    output := output.(writerPendingSeen := observed || during.writerPending, writerActiveSeen := during.writerActive);
    var changed := output.generationBefore != output.generationAfter || during.writerActive || !during.sourceVerified;
    lease.Release();
    if changed {
      output := output.(status := ReaderExpired, consistency := NotApplicable, fastError := EXPIRED_MESSAGE);
      return;
    }
    output := output.(consistency := if o.Success? then Verified else NotApplicable);
    output := output.(status := if o.Success? then ReadOk else FastBackendReadFailed);
    if o.Success? {
      output := output.(result := Some(o.result));
    } else {
      output := output.(fastError := FastMessage(o));
    }
  }

  method ReadGdalPath<T>(coordinator: InProcessGdbCoordinator, p: Path, o: Outcome<T>, begun: ReadResult<T>, ghost before: Entry,
                         pendingEventsBefore: nat)
    returns (output: ReadResult<T>)
    requires begun == BusyResult(before) && pendingEventsBefore == before.pendingEvents
    ensures output == GdalResult(before, Observe(coordinator.registry.View(), p), o)
  {
    output := begun.(backend := GdalOpenFileGDB, consistency := UnverifiedConcurrentRead);
    var after := coordinator.State(p);
    output := output.(generationAfter := after.generation);
    output := output.(writerPendingSeen :=
      output.writerPendingSeen || after.writerPending || after.pendingEvents != pendingEventsBefore);
    output := output.(writerActiveSeen := output.writerActiveSeen || after.writerActive);
    if o.Success? {
      output := output.(status := ReadOk, result := Some(o.result));
    } else {
      output := output.(status := GdalFailureStatus(o), gdalError := GdalMessage(o));
    }
  }

  function BusyResult<T>(before: Entry): ReadResult<T> {
    EmptyResult<T>().(
      generationBefore := before.generation, generationAfter := before.generation,
      writerPendingSeen := before.writerPending, writerActiveSeen := before.writerActive)
  }

  /** A read whose blocks follow each other without interference: its answer, and the registry after it. */
  function ReadAnswer<T>(r: Registry, p: Path, policy: Policy, fast: Outcome<T>, gdal: Outcome<T>): (ReadResult<T>, Registry) {
    var (granted, lease) := AcquireBlock(r, p);
    if lease.Some? then (FastResult(granted, granted, p, lease.value, fast), ReleaseBlock(granted, p))
    else if policy == AnswerBusy then (BusyResult(Observe(granted, p)), granted)
    else (GdalResult(Observe(granted, p), Observe(granted, p), gdal), granted)
  }

  method Read<T>(coordinator: InProcessGdbCoordinator, p: Path, policy: Policy, fast: Outcome<T>, gdal: Outcome<T>)
    returns (output: ReadResult<T>)
    modifies coordinator.registry
    ensures (output, coordinator.registry.View()) == ReadAnswer(old(coordinator.registry.View()), p, policy, fast, gdal)
  {
    var lease := coordinator.TryAcquireFastReader(p);
    if lease.counted {
      output := ReadFastPath(coordinator, p, fast, lease);
      return;
    }
    var before := coordinator.State(p);
    output := BusyResult(before);
    if policy == AnswerBusy {
      return;
    }
    output := ReadGdalPath(coordinator, p, gdal, output, before, before.pendingEvents);
  }

  /** What a back end that did not succeed says for itself; without one the session says so. */
  predicate SaysWhy<T>(o: Outcome<T>, missing: string, error: string) {
    match o
    case Success(_) => error == ""
    case NotConfigured => error == missing
    case Failure(_, message) => error == message
    case Threw(message) => error == message
  }

  /** An unverified answer of the fresh back end: its result or its error, and the writers seen before and after. */
  ghost predicate FreshAnswer<T>(output: ReadResult<T>, o: Outcome<T>, before: Source, after: Source, announced: bool) {
    && output.backend == GdalOpenFileGDB && output.consistency == UnverifiedConcurrentRead
    && output.result == (if o.Success? then Some(o.result) else None)
    && output.status == (match o
                         case Success(_) => ReadOk
                         case NotConfigured => GdalOpenFailed
                         case Failure(kind, _) => if kind == OpenFailure then GdalOpenFailed else GdalReadFailed
                         case Threw(_) => GdalReadFailed)
    && SaysWhy(o, "fresh GDAL executor is not configured", output.gdalError) && output.fastError == ""
    && output.generationBefore == before.generation && output.generationAfter == after.generation
    && (output.writerPendingSeen <==> before.holder.Announced? || after.holder.Announced? || announced)
    && (output.writerActiveSeen <==> before.holder.Updating? || after.holder.Updating?)
  }

  lemma FreshAnswered<T>(before: Entry, after: Entry, o: Outcome<T>)
    requires EntryOk(before) && EntryOk(after)
    ensures FreshAnswer(GdalResult(before, after, o), o, SourceOf(before), SourceOf(after), before.pendingEvents != after.pendingEvents)
  {
  }

  /**
   * The fresh read, whatever everybody else does while its executor runs: the executor's result or error,
   * never called verified, with the generations before and after, and every writer that was announced or
   * active at either end or announced in between.
   */
  lemma GdalReadSees<T>(s: System, actions: seq<Action>, p: Path, o: Outcome<T>)
    requires Inv(s) && p != ""
    ensures var t := Run(s, actions);
      FreshAnswer(GdalResult(Observe(s.registry, p), Observe(t.registry, p), o), o, SourceAt(s.registry, p), SourceAt(t.registry, p),
                  Announcements(s, actions, p) > 0)
  {
    InvAlways(s, actions);
    ObservedIsGood(s.registry, p);
    ObservedIsGood(Run(s, actions).registry, p);
    EventsAreAnnouncements(s, actions, p);
    FreshAnswered(Observe(s.registry, p), Observe(Run(s, actions).registry, p), o);
  }

  /** A verified answer of the fast back end, or its error. */
  ghost predicate FastAnswer<T>(output: ReadResult<T>, o: Outcome<T>, generation: nat, announced: bool) {
    && output.backend == FastGdb && output.status == (if o.Success? then ReadOk else FastBackendReadFailed)
    && output.consistency == (if o.Success? then Verified else NotApplicable)
    && output.result == (if o.Success? then Some(o.result) else None)
    && SaysWhy(o, "fast executor is not configured", output.fastError) && output.gdalError == ""
    && output.generationBefore == output.generationAfter == generation
    && (output.writerPendingSeen <==> announced) && !output.writerActiveSeen
  }

  /** A fast read of a source that is as the lease found it. */
  lemma FastAnswered<T>(r: Registry, later: Registry, p: Path, lease: Snapshot, o: Outcome<T>, announced: bool)
    requires p != "" && p in later.sources && Observe(r, p).generation == lease.generation
    requires !Observe(r, p).writerActive && Observe(r, p).sourceVerified
    requires announced <==> Observe(r, p).writerPending || Observe(later, p).pendingEvents != lease.pendingEvents
    ensures FastAnswer(FastResult(r, later, p, lease, o), o, lease.generation, announced)
  {
  }

  /** A fast read of a source that is not as the lease found it has no result, whatever its executor came to. */
  lemma DisturbedReadExpires<T>(r: Registry, later: Registry, p: Path, lease: Snapshot, o: Outcome<T>)
    requires Observe(r, p).generation != lease.generation || Observe(r, p).writerActive || !Observe(r, p).sourceVerified
    ensures var output := FastResult(r, later, p, lease, o);
      && output.status == ReaderExpired && output.consistency == NotApplicable && output.result.None?
      && output.fastError == "fast reader generation changed during query; discard and reopen" && output.gdalError == ""
      && output.generationBefore == lease.generation && output.generationAfter == Observe(r, p).generation
  {
  }

  /** Refused, with what is there. */
  predicate BusyAnswer<T>(output: ReadResult<T>, before: Source) {
    && output.backend == NoBackend && output.status == SourceBusy && output.consistency == NotApplicable && output.result.None?
    && output.generationBefore == output.generationAfter == before.generation
    && (output.writerPendingSeen <==> before.holder.Announced?) && (output.writerActiveSeen <==> before.holder.Updating?)
    && output.fastError == "" && output.gdalError == ""
  }

  lemma FastReadLeaves<T>(r: Registry, p: Path, policy: Policy, fast: Outcome<T>, gdal: Outcome<T>)
    requires EntriesOk(r) && p != "" && SourceAt(r, p).holder == Nobody
    ensures var (output, after) := ReadAnswer(r, p, policy, fast, gdal);
      SourceAt(after, p) == SourceAt(r, p) && FastAnswer(output, fast, SourceAt(r, p).generation, false)
  {
    var (granted, lease) := AcquireBlock(r, p);
    BlockIsStep(r, AcquireAt(p), p);
    EntriesKept(r, AcquireAt(p));
    BlockIsStep(granted, ReleaseAt(p), p);
    ObservedIsGood(granted, p);
    FastAnswered(granted, granted, p, lease.value, fast, false);
  }

  lemma RefusedReadLeaves<T>(r: Registry, p: Path, policy: Policy, fast: Outcome<T>, gdal: Outcome<T>)
    requires EntriesOk(r) && p != "" && SourceAt(r, p).holder != Nobody
    ensures var (output, after) := ReadAnswer(r, p, policy, fast, gdal);
      var source := SourceAt(r, p);
      && SourceAt(after, p) == source
      && if policy == AnswerBusy then BusyAnswer(output, source) else FreshAnswer(output, gdal, source, source, false)
  {
    BlockIsStep(r, AcquireAt(p), p);
    ObservedIsGood(r, p);
    FreshAnswered(Observe(r, p), Observe(r, p), gdal);
  }

  /**
   * A whole read without interference.  A source that is nobody's is read fast and verified; on any other the
   * policy decides between the answer busy and the fresh read.  Either way the source is left as it was.
   */
  lemma ReadIsAnswered<T>(r: Registry, p: Path, policy: Policy, fast: Outcome<T>, gdal: Outcome<T>)
    requires EntriesOk(r) && p != ""
    ensures var (output, after) := ReadAnswer(r, p, policy, fast, gdal);
      var source := SourceAt(r, p);
      && SourceAt(after, p) == source
      && (if source.holder == Nobody then FastAnswer(output, fast, source.generation, false)
          else if policy == AnswerBusy then BusyAnswer(output, source)
          else FreshAnswer(output, gdal, source, source, false))
  {
    if SourceAt(r, p).holder == Nobody {
      FastReadLeaves(r, p, policy, fast, gdal);
    } else {
      RefusedReadLeaves(r, p, policy, fast, gdal);
    }
  }

  /**
   * Whatever everybody else does while a fast read's executor runs, and then between the read's two looks
   * at the registry, the read is not reported expired, it is Verified exactly when its executor succeeded,
   * and at every moment since the lease was granted the source was at one generation with no writer active.
   */
  lemma FastReadSound<T>(s: System, h: Handle, actions: seq<Action>, between: seq<Action>, o: Outcome<T>, k: nat)
    requires Inv(s) && IsCounted(s, h) && s.leases[h].path != "" && k <= |actions + between|
    requires forall a <- actions + between :: !Touches(a, h)
    ensures var lease := s.leases[h];
      var output := FastResult(Run(s, actions).registry, Run(s, actions + between).registry, lease.path, lease.snapshot, o);
      && output.status == (if o.Success? then ReadOk else FastBackendReadFailed)
      && (output.consistency == Verified <==> o.Success?)
      && output.result == (if o.Success? then Some(o.result) else None)
      && output.generationBefore == output.generationAfter
      && !output.writerActiveSeen
      && Undisturbed(Run(s, (actions + between)[..k]), lease)
  {
    LeaseSpan(s, actions + between, h, k);
    LeaseSpan(s, actions + between, h, |actions|);
    assert (actions + between)[..|actions|] == actions;
  }

  /**
   * From the grant of its lease on, a fast read answers with what its executor came to, and says that a writer
   * is pending exactly if one was announced since: while the executor ran or between the two looks.
   */
  lemma FastReadSees<T>(s: System, h: Handle, p: Path, actions: seq<Action>, between: seq<Action>, o: Outcome<T>)
    requires Inv(s) && p != "" && h !in s.leases && WriterOf(s, p) == 0
    requires (forall a <- actions :: !Touches(a, h)) && forall a <- between :: !Touches(a, h)
    ensures var granted := Next(s, Acquire(h, p));
      var r := Run(granted, actions);
      var later := Run(r, between);
      && IsCounted(granted, h)
      && FastAnswer(FastResult(r.registry, later.registry, p, granted.leases[h].snapshot, o), o, GenerationOf(s, p),
                    Announcements(granted, actions, p) + Announcements(r, between, p) > 0)
  {
    var granted := Next(s, Acquire(h, p));
    ReaderIsAdmitted(s, h, p);
    HolderIsWriter(s, p);
    InvKept(s, Acquire(h, p));
    FastLooks(granted, h, p, actions, between, o);
  }

  lemma FastLooks<T>(s: System, h: Handle, p: Path, actions: seq<Action>, between: seq<Action>, o: Outcome<T>)
    requires Inv(s) && IsCounted(s, h) && p != "" && s.leases[h].path == p && SourceAt(s.registry, p).holder == Nobody
    requires s.leases[h].snapshot == Snapshot(SourceAt(s.registry, p).generation, SourceAt(s.registry, p).events)
    requires (forall a <- actions :: !Touches(a, h)) && forall a <- between :: !Touches(a, h)
    ensures var r := Run(s, actions);
      FastAnswer(FastResult(r.registry, Run(r, between).registry, p, s.leases[h].snapshot, o), o, SourceAt(s.registry, p).generation,
                 Announcements(s, actions, p) + Announcements(r, between, p) > 0)
  {
    var r := Run(s, actions);
    assert Undisturbed(r, s.leases[h]) by {
      LeaseSpan(s, actions, h, |actions|);
      assert actions[..|actions|] == actions;
    }
    InvAlways(s, actions);
    EventsAreAnnouncements(s, actions, p);
    EventsAreAnnouncements(r, between, p);
    PathStays(r, between, p);
    FastAnswered(r.registry, Run(r, between).registry, p, s.leases[h].snapshot, o,
                 Announcements(s, actions, p) + Announcements(r, between, p) > 0);
  }

  lemma {:induction false} PathStays(s: System, actions: seq<Action>, p: Path)
    requires p in s.registry.sources
    ensures p in Run(s, actions).registry.sources
    decreases |actions|
  {
    if actions == [] {
    } else {
      PathStaysInBlock(s.registry, BlockOf(s, actions[0]), p);
      PathStays(Next(s, actions[0]), actions[1..], p);
    }
  }

  lemma PathStaysInBlock(r: Registry, b: Block, p: Path)
    requires p in r.sources
    ensures p in Execute(r, b).0.sources
  {
  }

  // ---- The cursor ----------------------------------------------------------------------------------

  /** What one call of the back end's next callback came to. */
  datatype NextOutcome = Returned(hasFeature: bool, error: string) | NextThrew(error: string)

  datatype CloseOutcome = CloseReturned | CloseThrew(message: string)

  datatype CursorState = CursorState(
    status: ReadStatus,
    backend: Backend,
    consistency: Consistency,
    leaseCounted: bool,
    hasClose: bool,
    done: bool,
    backendClosed: bool,
    error: string)

  /** What becomes of the count a cursor holds. */
  datatype LeaseFate = Untouched | Released | AbandonedForGood

  /** Every cursor a session opens is like this, and stays like this. */
  predicate CursorOk(c: CursorState) {
    && (c.leaseCounted <==> c.backend == FastGdb && !c.done)
    && (c.consistency == Verified <==> c.backend == FastGdb && c.status == ReadOk)
    && (!c.done ==> c.status == ReadOk && c.error == "" && !c.backendClosed)
  }

  function FailAs(c: CursorState): CursorState {
    if c.backend == GdalOpenFileGDB then c.(status := GdalReadFailed, consistency := UnverifiedConcurrentRead)
    else c.(status := FastBackendReadFailed, consistency := NotApplicable)
  }

  function CleanupError(message: string): string {
    if message == "" then "backend cursor cleanup failed" else "backend cursor cleanup failed: " + message
  }

  predicate CleanupFails(c: CursorState, o: CloseOutcome) {
    !c.backendClosed && c.hasClose && o.CloseThrew?
  }

  /** The registry is told of a release, and of nothing when the lease is abandoned or was not counted. */
  function AfterFate(r: Registry, p: Path, fate: LeaseFate): Registry {
    if fate == Released then ReleaseBlock(r, p) else r
  }

  /** A lease that is released takes one from its source's readers; one that is abandoned leaves its count behind. */
  lemma FateIsFelt(r: Registry, p: Path, fate: LeaseFate)
    requires EntriesOk(r) && p != ""
    ensures var before, after := SourceAt(r, p), SourceAt(AfterFate(r, p, fate), p);
      && after == before.(readers := after.readers)
      && before.readers - after.readers == if fate == Released && before.readers > 0 then 1 else 0
  {
    BlockIsStep(r, ReleaseAt(p), p);
  }

  function FateAtClose(c: CursorState, o: CloseOutcome): LeaseFate {
    if !c.leaseCounted then Untouched
    else if CleanupFails(c, o) && c.backend == FastGdb then AbandonedForGood
    else Released
  }

  function CloseState(c: CursorState, o: CloseOutcome): CursorState {
    var closed :=
      if !CleanupFails(c, o) then c
      else
        var failed := if c.status == ReadOk then FailAs(c) else c;
        if failed.error == "" then failed.(error := CleanupError(o.message)) else failed;
    closed.(backendClosed := true, leaseCounted := false, done := true)
  }

  /** The cursor after next, whether it delivered a feature, and what became of its lease. */
  function NextState(c: CursorState, expired: bool, n: NextOutcome, o: CloseOutcome): (CursorState, bool, LeaseFate) {
    if c.done || c.status != ReadOk then (c, false, Untouched)
    else if c.backend == FastGdb && expired then
      var c := c.(status := ReaderExpired, consistency := NotApplicable,
                  error := "fast reader lease expired at cursor safe point");
      (CloseState(c, o), false, FateAtClose(c, o))
    else if n.Returned? && n.hasFeature then (c, true, Untouched)
    else
      var c := if n.error == "" then c else FailAs(c).(error := n.error);
      (CloseState(c, o), false, FateAtClose(c, o))
  }

  class AdaptiveFeatureCursor {
    var status: ReadStatus
    var backend: Backend
    var consistency: Consistency
    const fastLease: FastReaderLease
    const hasClose: bool
    var done: bool
    var backendClosed: bool
    var error: string

    function View(): CursorState
      reads this, fastLease
    {
      CursorState(status, backend, consistency, fastLease.counted, hasClose, done, backendClosed, error)
    }

    constructor (status: ReadStatus, backend: Backend, consistency: Consistency, lease: FastReaderLease, hasNext: bool,
                 hasClose: bool)
      ensures fastLease == lease
      ensures View() ==
        CursorState(status, backend, consistency, lease.counted, hasClose, status != ReadOk || !hasNext, false, "")
    {
      this.status, this.backend, this.consistency := status, backend, consistency;
      this.fastLease, this.hasClose := lease, hasClose;
      this.done, this.backendClosed, this.error := status != ReadOk || !hasNext, false, "";
    }

    /** Would the lease's safe point stop the reader now? */
    predicate Expired()
      reads this, fastLease, fastLease.registry
    {
      fastLease.registry == null || ExpiredAt(fastLease.registry.View(), fastLease.path, fastLease.generation)
    }

    method Fail(message: string)
      modifies this`status, this`consistency, this`error
      ensures View() == FailAs(old(View())).(error := message)
    {
      error := message;
      if backend == GdalOpenFileGDB {
        status, consistency := GdalReadFailed, UnverifiedConcurrentRead;
      } else {
        status, consistency := FastBackendReadFailed, NotApplicable;
      }
    }

    method Next(n: NextOutcome, o: CloseOutcome) returns (delivered: bool)
      requires fastLease.Valid()
      modifies this, fastLease, fastLease.registry
      ensures fastLease.Valid()
      ensures (View(), delivered) ==
        (NextState(old(View()), old(Expired()), n, o).0, NextState(old(View()), old(Expired()), n, o).1)
      ensures old(fastLease.registry) != null ==>
        old(fastLease.registry).View() ==
        AfterFate(old(fastLease.registry.View()), old(fastLease.path), NextState(old(View()), old(Expired()), n, o).2)
    {
      if done || status != ReadOk {
        return false;
      }
      if backend == FastGdb {
        var expired := fastLease.ExpiredAtSafePoint();
        if expired {
          status, consistency := ReaderExpired, NotApplicable;
          error := "fast reader lease expired at cursor safe point";
          CloseBackend(o);
          return false;
        }
      }
      if n.Returned? && n.hasFeature {
        return true;
      }
      if n.error != "" {
        Fail(n.error);
      }
      CloseBackend(o);
      delivered := false;
    }

    method CloseBackend(o: CloseOutcome)
      requires fastLease.Valid()
      modifies this, fastLease, fastLease.registry
      ensures fastLease.Valid()
      ensures View() == CloseState(old(View()), o)
      ensures old(fastLease.registry) != null ==>
        old(fastLease.registry).View() ==
        AfterFate(old(fastLease.registry.View()), old(fastLease.path), FateAtClose(old(View()), o))
    {
      var cleanupFailed, cleanupError := false, "";
      if !backendClosed {
        if hasClose && o.CloseThrew? {
          cleanupFailed, cleanupError := true, o.message;
        }
        backendClosed := true;
      }
      if cleanupFailed {
        if backend == FastGdb && fastLease.counted {
          fastLease.AbandonFailClosed();
        } else {
          fastLease.Release();
        }
        if status == ReadOk {
          if backend == GdalOpenFileGDB {
            status, consistency := GdalReadFailed, UnverifiedConcurrentRead;
          } else {
            status, consistency := FastBackendReadFailed, NotApplicable;
          }
        }
        if error == "" {
          error := CleanupError(cleanupError);
        }
      } else {
        fastLease.Release();
      }
      done := true;
    }
  }

  /** What calling a cursor factory came to. */
  datatype FactoryOutcome = NoFactory | Made(hasNext: bool, hasClose: bool) | FactoryThrew(message: string)

  function FactoryMessage(o: FactoryOutcome, path: string): string
    requires !(o.Made? && o.hasNext)
  {
    match o
    case NoFactory => path + " cursor factory is not configured"
    case Made(_, _) => path + " cursor factory returned no next callback"
    case FactoryThrew(message) => message
  }

  /** The cursor a session returns: open with the lease, open on GDAL, or failed from the start. */
  function OpenState(granted: bool, policy: Policy, fast: FactoryOutcome, gdal: FactoryOutcome): CursorState {
    if granted then
      if fast.Made? && fast.hasNext then
        CursorState(ReadOk, FastGdb, Verified, true, fast.hasClose, false, false, "")
      else
        CursorState(FastBackendReadFailed, FastGdb, NotApplicable, false, false, true, false, FactoryMessage(fast, "fast"))
    else if policy == AnswerBusy then
      CursorState(SourceBusy, NoBackend, NotApplicable, false, false, true, false, "")
    else if gdal.Made? && gdal.hasNext then
      CursorState(ReadOk, GdalOpenFileGDB, UnverifiedConcurrentRead, false, gdal.hasClose, false, false, "")
    else
      CursorState(GdalOpenFailed, GdalOpenFileGDB, UnverifiedConcurrentRead, false, false, true, false,
                  FactoryMessage(gdal, if gdal.NoFactory? then "fresh GDAL" else "GDAL"))
  }

  method FailedCursor(status: ReadStatus, backend: Backend, consistency: Consistency, error: string)
    returns (cursor: AdaptiveFeatureCursor)
    requires status != ReadOk
    ensures fresh(cursor) && cursor.fastLease.Valid()
    ensures cursor.View() == CursorState(status, backend, consistency, false, false, true, false, error)
  {
    var empty := new FastReaderLease.Empty();
    cursor := new AdaptiveFeatureCursor(status, backend, consistency, empty, false, false);
    cursor.error := error;
  }

  method OpenCursor(coordinator: InProcessGdbCoordinator, p: Path, policy: Policy, fast: FactoryOutcome, gdal: FactoryOutcome)
    returns (cursor: AdaptiveFeatureCursor)
    modifies coordinator.registry
    ensures fresh(cursor) && cursor.fastLease.Valid()
    ensures var (granted, lease) := AcquireBlock(old(coordinator.registry.View()), p);
      && cursor.View() == OpenState(lease.Some?, policy, fast, gdal)
      && coordinator.registry.View() ==
           (if lease.Some? && !cursor.fastLease.counted then ReleaseBlock(granted, p) else granted)
      && (cursor.fastLease.counted ==>
            && lease == Some(Snapshot(cursor.fastLease.generation, cursor.fastLease.pendingEvents))
            && cursor.fastLease.registry == coordinator.registry && cursor.fastLease.path == p)
  {
    var lease := coordinator.TryAcquireFastReader(p);
    if lease.counted {
      if fast.Made? && fast.hasNext {
        cursor := new AdaptiveFeatureCursor(ReadOk, FastGdb, Verified, lease, true, fast.hasClose);
      } else {
        lease.Release();
        cursor := FailedCursor(FastBackendReadFailed, FastGdb, NotApplicable, FactoryMessage(fast, "fast"));
      }
      return;
    }
    if policy == AnswerBusy {
      cursor := FailedCursor(SourceBusy, NoBackend, NotApplicable, "");
      return;
    }
    if gdal.Made? && gdal.hasNext {
      cursor := new AdaptiveFeatureCursor(ReadOk, GdalOpenFileGDB, UnverifiedConcurrentRead, lease, true, gdal.hasClose);
    } else {
      cursor := FailedCursor(GdalOpenFailed, GdalOpenFileGDB, UnverifiedConcurrentRead,
                             FactoryMessage(gdal, if gdal.NoFactory? then "fresh GDAL" else "GDAL"));
    }
  }

  lemma OpenedCursorOk(granted: bool, policy: Policy, fast: FactoryOutcome, gdal: FactoryOutcome)
    ensures CursorOk(OpenState(granted, policy, fast, gdal))
    ensures OpenState(granted, policy, fast, gdal).leaseCounted ==> granted
  {
  }

  lemma CursorKept(c: CursorState, expired: bool, n: NextOutcome, o: CloseOutcome)
    requires CursorOk(c)
    ensures CursorOk(NextState(c, expired, n, o).0) && CursorOk(CloseState(c, o))
    ensures NextState(c, expired, n, o).1 ==> NextState(c, expired, n, o).0 == c
  {
  }

  /** Closing is final: a second close, or any later next, changes nothing and delivers nothing. */
  lemma CloseIsFinal(c: CursorState, expired: bool, n: NextOutcome, o: CloseOutcome, o': CloseOutcome)
    ensures var closed := CloseState(c, o);
      && closed.done && !closed.leaseCounted
      && CloseState(closed, o') == closed && FateAtClose(closed, o') == Untouched
      && NextState(closed, expired, n, o') == (closed, false, Untouched)
  {
  }

  /**
   * A call of next that delivers nothing ends the cursor for good; it ends with status Ok exactly when
   * there was no failure to report: not expired, no error text, and the back end closed cleanly.
   */
  lemma NextWithoutFeatureIsFinal(c: CursorState, expired: bool, n: NextOutcome, o: CloseOutcome, expired': bool,
                                  n': NextOutcome, o': CloseOutcome)
    requires CursorOk(c) && !NextState(c, expired, n, o).1
    ensures var after := NextState(c, expired, n, o).0;
      && after.done && !after.leaseCounted
      && NextState(after, expired', n', o') == (after, false, Untouched)
    ensures !c.done ==>
      (NextState(c, expired, n, o).0.status == ReadOk <==>
        !(c.backend == FastGdb && expired) && n.error == "" && !CleanupFails(c, o))
  {
  }

  // Whole histories of one cursor

  datatype Call = CallNext(expired: bool, n: NextOutcome, o: CloseOutcome) | CallClose(o: CloseOutcome)

  /** One call: the cursor after it, whether it delivered a feature, and what became of the lease. */
  function Called(c: CursorState, call: Call): (CursorState, bool, LeaseFate) {
    match call
    case CallNext(expired, n, o) => NextState(c, expired, n, o)
    case CallClose(o) => (CloseState(c, o), false, FateAtClose(c, o))
  }

  function AfterCalls(c: CursorState, calls: seq<Call>): CursorState {
    if calls == [] then c else Called(AfterCalls(c, calls[..|calls| - 1]), calls[|calls| - 1]).0
  }

  /** How often the cursor's count was released or abandoned. */
  function Settled(c: CursorState, calls: seq<Call>): nat {
    if calls == [] then 0
    else
      var before := calls[..|calls| - 1];
      Settled(c, before) + if Called(AfterCalls(c, before), calls[|calls| - 1]).2 == Untouched then 0 else 1
  }

  function Held(c: CursorState): nat {
    if c.leaseCounted then 1 else 0
  }

  lemma {:induction false} SettledOnce(c: CursorState, calls: seq<Call>)
    requires CursorOk(c)
    ensures CursorOk(AfterCalls(c, calls)) && Settled(c, calls) + Held(AfterCalls(c, calls)) == Held(c)
  {
    if calls == [] {
    } else {
      var before, last := calls[..|calls| - 1], calls[|calls| - 1];
      SettledOnce(c, before);
      match last
      case CallNext(expired, n, o) => CursorKept(AfterCalls(c, before), expired, n, o);
      case CallClose(o) => CursorKept(AfterCalls(c, before), false, Returned(false, ""), o);
    }
  }

  /**
   * Through any history of calls an opened cursor keeps its invariant, and the count it was opened with is
   * held or was released or abandoned, once.
   */
  lemma CountSettledOnce(granted: bool, policy: Policy, fast: FactoryOutcome, gdal: FactoryOutcome, calls: seq<Call>)
    ensures var start := OpenState(granted, policy, fast, gdal);
      && CursorOk(AfterCalls(start, calls))
      && Settled(start, calls) + Held(AfterCalls(start, calls)) == Held(start) <= if granted then 1 else 0
  {
    OpenedCursorOk(granted, policy, fast, gdal);
    SettledOnce(OpenState(granted, policy, fast, gdal), calls);
  }

  /** A call that delivers nothing ends the cursor: no call right after it delivers. */
  lemma DeliveryNeedsDelivery(c: CursorState, first: Call, second: Call)
    requires CursorOk(c) && Called(Called(c, first).0, second).1
    ensures Called(c, first).1 && Called(c, first).0 == c
  {
    match first
    case CallNext(expired, n, o) =>
      CursorKept(c, expired, n, o);
      if !NextState(c, expired, n, o).1 && second.CallNext? {
        NextWithoutFeatureIsFinal(c, expired, n, o, second.expired, second.n, second.o);
      }
    case CallClose(_) =>
  }

  /** Features come first: where a call delivers, every call before it did, and the cursor is as it was opened. */
  lemma {:induction false} FeaturesComeFirst(c: CursorState, calls: seq<Call>, i: nat)
    requires CursorOk(c) && i < |calls| && Called(AfterCalls(c, calls[..|calls| - 1]), calls[|calls| - 1]).1
    ensures AfterCalls(c, calls) == AfterCalls(c, calls[..i]) == c
    ensures Called(AfterCalls(c, calls[..i]), calls[i]).1
    decreases |calls|
  {
    var before, last := calls[..|calls| - 1], calls[|calls| - 1];
    if before == [] {
      assert calls[..i] == before && calls[i] == last;
    } else {
      var k := |before| - 1;
      SettledOnce(c, before[..k]);
      assert before[..k] == calls[..k];
      DeliveryNeedsDelivery(AfterCalls(c, before[..k]), before[k], last);
      FeaturesComeFirst(c, before, if i < |before| then i else 0);
      assert i < |before| ==> before[..i] == calls[..i];
    }
  }

  /** The one failure that passes for the end of the data: an exception that carries no text. */
  lemma SilentExceptionLooksLikeTheEnd(c: CursorState)
    requires CursorOk(c) && !c.done && !c.hasClose
    ensures NextState(c, false, NextThrew(""), CloseReturned) == NextState(c, false, Returned(false, ""), CloseReturned)
    ensures NextState(c, false, NextThrew(""), CloseReturned).0.status == ReadOk
  {
  }

  /** A factory made something that can be advanced. */
  predicate Usable(o: FactoryOutcome) {
    o.Made? && o.hasNext
  }

  /**
   * How a session opens a cursor.  A granted lease decides for the fast back end, and its factory for success;
   * without a lease the policy decides whether the fresh back end is asked at all.
   */
  lemma OpenedHow(granted: bool, policy: Policy, fast: FactoryOutcome, gdal: FactoryOutcome, o: CloseOutcome)
    ensures var c := OpenState(granted, policy, fast, gdal);
      && (!c.done <==> if granted then Usable(fast) else policy == ReadUnverified && Usable(gdal))
      && c.backend == (if granted then FastGdb else if policy == AnswerBusy then NoBackend else GdalOpenFileGDB)
      && (c.leaseCounted <==> granted && Usable(fast)) && !c.backendClosed
      && (!c.done ==> c.status == ReadOk && c.error == "" && c.hasClose == if granted then fast.hasClose else gdal.hasClose)
      && (c.done ==> c.status == if granted then FastBackendReadFailed else if policy == AnswerBusy then SourceBusy else GdalOpenFailed)
      && (c.done ==> !c.hasClose && CloseState(c, o) == c.(backendClosed := true))
      && (c.consistency == Verified <==> granted && Usable(fast))
      && (c.consistency == UnverifiedConcurrentRead <==> !granted && policy == ReadUnverified)
  {
  }

  /** The words for a factory that gave nothing to advance: missing, without a callback, or its own. */
  predicate FactoryFailed(error: string, o: FactoryOutcome, missing: string, made: string) {
    match o
    case NoFactory => error == missing + " cursor factory is not configured"
    case Made(_, _) => error == made + " cursor factory returned no next callback"
    case FactoryThrew(message) => error == message
  }

  /** Why a cursor could not be opened. */
  lemma OpenedWithout(granted: bool, policy: Policy, fast: FactoryOutcome, gdal: FactoryOutcome)
    requires OpenState(granted, policy, fast, gdal).done
    ensures var error := OpenState(granted, policy, fast, gdal).error;
      if granted then FactoryFailed(error, fast, "fast", "fast")
      else if policy == AnswerBusy then error == ""
      else FactoryFailed(error, gdal, "fresh GDAL", "GDAL")
  {
  }

  /** What is reported of a back end that failed. */
  predicate BackendFailed(c: CursorState) {
    if c.backend == GdalOpenFileGDB then c.status == GdalReadFailed && c.consistency == UnverifiedConcurrentRead
    else c.status == FastBackendReadFailed && c.consistency == NotApplicable
  }

  /** The text of a cleanup that failed is reported where there is no other. */
  predicate ClosedWith(after: CursorState, error: string, fails: bool, o: CloseOutcome) {
    if error != "" || !fails || o.CloseReturned? then after.error == error
    else if o.message == "" then after.error == "backend cursor cleanup failed"
    else after.error == "backend cursor cleanup failed: " + o.message
  }

  /**
   * One call of next on any open cursor, whichever its back end.  A feature the back end has is delivered and
   * nothing changes, unless a fast lease has expired.  Everything else closes the cursor for good: with expiry,
   * the back end's error or the cleanup's, in this order, and with status Ok if there is none.
   */
  lemma NextIs(c: CursorState, expired: bool, n: NextOutcome, o: CloseOutcome)
    requires CursorOk(c) && !c.done && c.backend != NoBackend
    ensures var (after, delivered, fate) := NextState(c, expired, n, o);
      var expires := c.backend == FastGdb && expired;
      var fails := c.hasClose && o.CloseThrew?;
      && (delivered <==> !expires && n.Returned? && n.hasFeature)
      && (delivered ==> after == c && fate == Untouched)
      && (!delivered ==>
            && after.done && after.backendClosed && !after.leaseCounted && after.backend == c.backend
            && (if expires then after.status == ReaderExpired && after.consistency == NotApplicable
                else if n.error != "" || fails then BackendFailed(after)
                else after.status == ReadOk && after.consistency == c.consistency)
            && ClosedWith(after, if expires then "fast reader lease expired at cursor safe point" else n.error, fails, o)
            && fate == if c.backend != FastGdb then Untouched else if fails then AbandonedForGood else Released)
  {
  }

  /** Closing an open cursor: clean, or with the failure of its cleanup. */
  lemma CloseIs(c: CursorState, o: CloseOutcome)
    requires CursorOk(c) && !c.done && c.backend != NoBackend
    ensures var after, fails := CloseState(c, o), c.hasClose && o.CloseThrew?;
      && after.done && after.backendClosed && !after.leaseCounted
      && (if fails then BackendFailed(after) else after.status == ReadOk && after.consistency == c.consistency)
      && ClosedWith(after, "", fails, o)
      && FateAtClose(c, o) == if c.backend != FastGdb then Untouched else if fails then AbandonedForGood else Released
  {
  }

  /** A lease that is still counted expires only at a pending writer. */
  lemma CountedExpiresAtPending(s: System, l: Lease)
    requires Undisturbed(s, l) && l.path != ""
    ensures ExpiredAt(s.registry, l.path, l.snapshot.generation) <==> Observe(s.registry, l.path).writerPending
  {
  }

  /**
   * The cursor comes to a safe point and its back end's callback runs after it.  From its opening until the
   * callback has returned the source is at one generation with no writer active, whatever everybody else
   * does before the safe point or during the callback, so every feature it delivers was produced then, and
   * is Verified.  A writer that is pending at the safe point ends it; one announced during the callback does not.
   */
  lemma FastFeatureSound(s: System, h: Handle, actions: seq<Action>, during: seq<Action>, c: CursorState, n: NextOutcome,
                         o: CloseOutcome, k: nat)
    requires Inv(s) && IsCounted(s, h) && s.leases[h].path != "" && k <= |actions + during|
    requires forall a <- actions + during :: !Touches(a, h)
    requires CursorOk(c) && c.backend == FastGdb && !c.done
    ensures var lease := s.leases[h];
      var t := Run(s, actions);
      var (after, delivered, fate) :=
        NextState(c, ExpiredAt(t.registry, lease.path, lease.snapshot.generation), n, o);
      && Undisturbed(Run(s, (actions + during)[..k]), lease)
      && (delivered <==> !Observe(t.registry, lease.path).writerPending && n.Returned? && n.hasFeature)
      && (delivered ==> after.consistency == Verified && after.leaseCounted && fate == Untouched)
      && (after.status == ReaderExpired <==> Observe(t.registry, lease.path).writerPending)
  {
    var lease, t := s.leases[h], Run(s, actions);
    assert Undisturbed(t, lease) by {
      LeaseSpan(s, actions + during, h, |actions|);
      assert (actions + during)[..|actions|] == actions;
    }
    LeaseSpan(s, actions + during, h, k);
    CountedExpiresAtPending(t, lease);
    NextIs(c, ExpiredAt(t.registry, lease.path, lease.snapshot.generation), n, o);
  }

  /**
   * When closing the back end of an open fast cursor throws, whether the close was asked for or a call of
   * next came to it, by expiry, by a failure or at the end of the data, the cursor's count is abandoned,
   * and from then on, in every interleaving, the source never has an active writer.
   */
  lemma ThrownCloseFailsClosed(s: System, h: Handle, actions: seq<Action>, c: CursorState, message: string, expired: bool, n: NextOutcome)
    requires Inv(s) && IsCounted(s, h)
    requires CursorOk(c) && c.backend == FastGdb && !c.done && c.hasClose
    ensures FateAtClose(c, CloseThrew(message)) == AbandonedForGood
    ensures CloseState(c, CloseThrew(message)).status == FastBackendReadFailed
    ensures var (after, delivered, fate) := NextState(c, expired, n, CloseThrew(message));
      !delivered ==> fate == AbandonedForGood && after.status == if expired then ReaderExpired else FastBackendReadFailed
    ensures !WriterInside(Run(Next(s, Abandon(h)), actions), s.leases[h].path)
  {
    NextIs(c, expired, n, CloseThrew(message));
    InvKept(s, Abandon(h));
    AbandonedForever(Next(s, Abandon(h)), actions, s.leases[h].path);
  }
}
