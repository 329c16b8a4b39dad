/**
 * What the flags of a registry entry amount to: a source is nobody's, announced or being updated.  Every
 * block is one step between these states, and the module says when clients get what they ask for.
 */
module SourceStates {
  import opened Bytes
  import opened Coordination
  import opened CoordinationRuns

  // ---- Three states ----------------------------------------------------------------------------------

  /** Whose the source is; an update is suspect once a close of it was reported as failed. */
  datatype Holder = Nobody | Announced(id: uint64) | Updating(id: uint64, suspect: bool)

  datatype Source = Source(holder: Holder, generation: nat, events: nat, readers: nat)

  /** The entry that stands for a state. */
  function EntryFor(s: Source): Entry {
    var suspect := s.holder.Updating? && s.holder.suspect;
    Entry(s.holder.Announced?, s.holder.Updating?, !suspect, suspect, s.generation, s.events, s.readers,
          if s.holder.Nobody? then 0 else s.holder.id)
  }

  /** The state an entry stands for. */
  function SourceOf(e: Entry): Source {
    Source(if e.writerPending then Announced(e.writerTokenId)
           else if e.writerActive then Updating(e.writerTokenId, !e.sourceVerified)
           else Nobody,
           e.generation, e.pendingEvents, e.fastReaderCount)
  }

  function SourceAt(r: Registry, p: Path): Source {
    SourceOf(Observe(r, p))
  }

  /** A good entry is exactly its state: no flag says anything else. */
  lemma EntryIsItsState(e: Entry)
    requires EntryOk(e)
    ensures EntryFor(SourceOf(e)) == e
  {
  }

  /** One block as a step of its source, where `newId` is the id that would be given out. */
  function Step(s: Source, b: Block, newId: uint64): (Source, Reply) {
    match b
    case NoBlock => (s, Reply(InvalidCoordinationToken, 0, None))
    case AcquireAt(_) =>
      if s.holder == Nobody then (s.(readers := s.readers + 1), Reply(Ok, 0, Some(Snapshot(s.generation, s.events))))
      else (s, Reply(Ok, 0, None))
    case ReleaseAt(_) => (if s.readers == 0 then s else s.(readers := s.readers - 1), Reply(Ok, 0, None))
    case PublishAt(_) =>
      (match s.holder
       case Nobody => (s.(holder := Announced(newId), events := s.events + 1), Reply(Ok, newId, None))
       case Announced(_) => (s, Reply(WriterAlreadyPending, 0, None))
       case Updating(_, _) => (s, Reply(WriterAlreadyActive, 0, None)))
    case FinishAt(_, id) =>
      if s.holder == Announced(id) && s.readers == 0 then (s, Reply(Ok, id, None))
      else (if s.holder == Announced(id) then s.(holder := Nobody) else s, Reply(ReadersActive, id, None))
    case OpenAt(_, id) =>
      if s.holder != Announced(id) then (s, Reply(InvalidCoordinationToken, id, None))
      else if s.readers > 0 then (s, Reply(ReadersActive, id, None))
      else (s.(holder := Updating(id, false)), Reply(Ok, id, None))
    case CancelAt(_, id) =>
      if s.holder == Announced(id) then (s.(holder := Nobody), Reply(Ok, id, None))
      else (s, Reply(InvalidCoordinationToken, id, None))
    case CompleteAt(_, id, closed) =>
      if !s.holder.Updating? || s.holder.id != id then (s, Reply(InvalidCoordinationToken, id, None))
      else
        var raised := if s.holder.suspect then s.generation else s.generation + 1;
        if closed then (s.(holder := Nobody, generation := raised), Reply(Ok, id, None))
        else (s.(holder := Updating(id, true), generation := raised), Reply(ExternalUpdateNotClosed, id, None))
  }

  /**
   * The blocks on flags do what the steps do on states: the same answer, the same state of the block's own
   * source afterwards, and no other source changed.
   */
  lemma BlockIsStep(r: Registry, b: Block, p: Path)
    requires EntriesOk(r) && !b.NoBlock? && b.path == p != ""
    ensures var (after, reply) := Execute(r, b);
      && (SourceAt(after, p), reply) == Step(SourceAt(r, p), b, TakeId(r.nextTokenId).0)
      && (p in after.sources ==> after.sources[p] == EntryFor(SourceAt(after, p)))
      && after.nextTokenId == if b.PublishAt? && reply.status == Ok then TakeId(r.nextTokenId).1 else r.nextTokenId
  {
    if p in r.sources {
      assert EntryOk(r.sources[p]);
    }
  }

  lemma OtherSourcesStay(r: Registry, b: Block, q: Path)
    requires b.NoBlock? || b.path != q
    ensures SourceAt(Execute(r, b).0, q) == SourceAt(r, q)
  {
  }

  /** A path without a normal form is refused, and nothing is noted for it. */
  lemma NoPathNoBlock(r: Registry, id: uint64, closed: bool)
    ensures AcquireBlock(r, "") == (r, None)
    ensures PublishBlock(r, "") == (r, InvalidCoordinationToken, 0)
    ensures CompleteBlock(r, "", id, closed) == (r, InvalidCoordinationToken)
  {
  }

  /** A lease must stop at a safe point exactly if its source is not there, is not nobody's, or is at another generation. */
  lemma LeaseExpires(r: Registry, p: Path, generation: nat)
    requires EntriesOk(r)
    ensures ExpiredAt(r, p, generation) <==>
      p == "" || p !in r.sources || SourceAt(r, p).holder != Nobody || SourceAt(r, p).generation != generation
  {
    ObservedIsGood(r, p);
  }

  lemma ObservedIsGood(r: Registry, p: Path)
    requires EntriesOk(r)
    ensures EntryOk(Observe(r, p))
  {
  }

  // ---- Readers are let in ----------------------------------------------------------------------------

  lemma HolderIsWriter(s: System, p: Path)
    requires Inv(s) && p != ""
    ensures SourceAt(s.registry, p).holder == Nobody <==> WriterOf(s, p) == 0
    ensures SourceAt(s.registry, p).generation == GenerationOf(s, p)
  {
    if p in s.registry.sources {
      assert EntryOk(s.registry.sources[p]);
    }
  }

  /** A reader gets its lease exactly when no writer is announced or active, however many readers there are. */
  lemma ReaderIsAdmitted(s: System, h: Handle, p: Path)
    requires Inv(s) && p != "" && h !in s.leases
    ensures var before, t := SourceAt(s.registry, p), Next(s, Acquire(h, p));
      && (Answer(s, Acquire(h, p)).granted.Some? <==> WriterOf(s, p) == 0)
      && (WriterOf(s, p) == 0 ==>
            && t.leases == s.leases[h := Lease(p, Snapshot(before.generation, before.events), true)]
            && SourceAt(t.registry, p) == before.(readers := before.readers + 1))
      && (WriterOf(s, p) != 0 ==> t.leases == s.leases && SourceAt(t.registry, p) == before)
  {
    BlockIsStep(s.registry, AcquireAt(p), p);
    HolderIsWriter(s, p);
  }

  function AcquireAll(hs: seq<Handle>, p: Path): seq<Action> {
    if hs == [] then [] else [Acquire(hs[0], p)] + AcquireAll(hs[1..], p)
  }

  /** The leases once each of the handles has got this one. */
  function WithLeases(leases: map<Handle, Lease>, hs: seq<Handle>, l: Lease): map<Handle, Lease>
    decreases |hs|
  {
    if hs == [] then leases else WithLeases(leases[hs[0] := l], hs[1..], l)
  }

  lemma {:induction false} WithLeasesHas(leases: map<Handle, Lease>, hs: seq<Handle>, l: Lease, h: Handle)
    ensures h in WithLeases(leases, hs, l) <==> h in hs || h in leases
    ensures h in WithLeases(leases, hs, l) ==> WithLeases(leases, hs, l)[h] == if h in hs then l else leases[h]
    decreases |hs|
  {
    if hs == [] {
    } else {
      WithLeasesHas(leases[hs[0] := l], hs[1..], l, h);
      assert hs == [hs[0]] + hs[1..];
    }
  }

  lemma {:induction false} RunFirst(s: System, a: Action, rest: seq<Action>)
    ensures Run(s, [a] + rest) == Run(Next(s, a), rest)
  {
    assert ([a] + rest)[1..] == rest;
  }

  /** Any number of readers, one after another, each get a lease on what is there. */
  lemma {:induction false} ReadersAreAdmitted(s: System, hs: seq<Handle>, p: Path)
    requires Inv(s) && p != "" && WriterOf(s, p) == 0
    requires (forall i, j :: 0 <= i < j < |hs| ==> hs[i] != hs[j]) && forall h <- hs :: h !in s.leases
    ensures var before, t := SourceAt(s.registry, p), Run(s, AcquireAll(hs, p));
      && SourceAt(t.registry, p) == before.(readers := before.readers + |hs|)
      && t.leases == WithLeases(s.leases, hs, Lease(p, Snapshot(before.generation, before.events), true))
    decreases |hs|
  {
    if hs == [] {
    } else {
      var t := Next(s, Acquire(hs[0], p));
      ReaderIsAdmitted(s, hs[0], p);
      InvKept(s, Acquire(hs[0], p));
      HolderIsWriter(s, p);
      HolderIsWriter(t, p);
      RunFirst(s, Acquire(hs[0], p), AcquireAll(hs[1..], p));
      ReadersAreAdmitted(t, hs[1..], p);
    }
  }

  /** Together they hold as many leases as there are handles. */
  lemma ReadersHoldLeases(s: System, hs: seq<Handle>, p: Path, h: Handle)
    requires Inv(s) && p != "" && WriterOf(s, p) == 0 && h in hs
    requires (forall i, j :: 0 <= i < j < |hs| ==> hs[i] != hs[j]) && forall h <- hs :: h !in s.leases
    ensures var before, t := SourceAt(s.registry, p), Run(s, AcquireAll(hs, p));
      IsCounted(t, h) && t.leases[h].path == p && t.leases[h].snapshot == Snapshot(before.generation, before.events)
  {
    var before := SourceAt(s.registry, p);
    ReadersAreAdmitted(s, hs, p);
    WithLeasesHas(s.leases, hs, Lease(p, Snapshot(before.generation, before.events), true), h);
  }

  // ---- Writers get in, and out -----------------------------------------------------------------------

  /** A writer is announced exactly on a source that is nobody's, readers or not, and else is told why. */
  lemma WriterIsAnnounced(s: System, w: Handle, p: Path)
    requires Inv(s) && p != "" && w !in s.writers
    ensures var before, t, answer := SourceAt(s.registry, p), Next(s, Publish(w, p)), Answer(s, Publish(w, p));
      && answer.status == (match before.holder
                           case Nobody => Ok
                           case Announced(_) => WriterAlreadyPending
                           case Updating(_, _) => WriterAlreadyActive)
      && (answer.status == Ok ==>
            && answer.id != 0 && t.writers == s.writers[w := Waiting(p, answer.id)]
            && SourceAt(t.registry, p) == before.(holder := Announced(answer.id), events := before.events + 1))
      && (answer.status != Ok ==> t.writers == s.writers && SourceAt(t.registry, p) == before)
  {
    BlockIsStep(s.registry, PublishAt(p), p);
  }

  /** A prepare that waits succeeds exactly once the readers are gone, and otherwise gives its announcement up. */
  lemma WriterIsPrepared(s: System, w: Handle)
    requires Inv(s) && IsWaiting(s, w) && s.writers[w].path != ""
    ensures var p, id := s.writers[w].path, s.writers[w].id;
      var before, t, status := SourceAt(s.registry, p), Next(s, Finish(w)), Answer(s, Finish(w)).status;
      && before.holder == Announced(id)
      && status == (if before.readers == 0 then Ok else ReadersActive)
      && t.writers[w] == (if before.readers == 0 then Token(p, id, Pending) else NO_TOKEN)
      && SourceAt(t.registry, p) == if before.readers == 0 then before else before.(holder := Nobody)
  {
    var p := s.writers[w].path;
    assert WriterOk(s.registry, s.writers[w]);
    assert EntryOk(s.registry.sources[p]);
    BlockIsStep(s.registry, FinishAt(p, s.writers[w].id), p);
  }

  /** A prepared token opens the source, or gives it back as it was. */
  lemma WriterIsOpened(s: System, w: Handle)
    requires Inv(s) && HasToken(s, w, Pending) && s.writers[w].path != ""
    ensures var p, id := s.writers[w].path, s.writers[w].id;
      var before, begun, cancelled := SourceAt(s.registry, p), Next(s, Open(w)), Next(s, Cancel(w));
      && before.holder == Announced(id) && before.readers == 0
      && Answer(s, Open(w)).status == Ok && begun.writers[w] == Token(p, id, Active)
      && SourceAt(begun.registry, p) == before.(holder := Updating(id, false))
      && Answer(s, Cancel(w)).status == Ok && cancelled.writers[w] == Token(p, id, Closed)
      && SourceAt(cancelled.registry, p) == before.(holder := Nobody)
  {
    var p := s.writers[w].path;
    assert WriterOk(s.registry, s.writers[w]);
    assert EntryOk(s.registry.sources[p]);
    BlockIsStep(s.registry, OpenAt(p, s.writers[w].id), p);
    BlockIsStep(s.registry, CancelAt(p, s.writers[w].id), p);
  }

  /** So does one that is lost. */
  lemma LostTokenGivesBack(s: System, w: Handle)
    requires Inv(s) && HasToken(s, w, Pending) && s.writers[w].path != ""
    ensures var p, t := s.writers[w].path, Next(s, LoseToken(w));
      t.writers[w] == NO_TOKEN && SourceAt(t.registry, p) == SourceAt(s.registry, p).(holder := Nobody)
  {
    var p := s.writers[w].path;
    assert WriterOk(s.registry, s.writers[w]);
    BlockIsStep(s.registry, CancelAt(p, s.writers[w].id), p);
  }

  /**
   * A close reported with the id of the update: the first report raises the generation, done or not.  One
   * that failed keeps the source from everybody; one that is done gives it to everybody.
   */
  lemma CloseIsReported(s: System, p: Path, id: uint64, closed: bool)
    requires Inv(s) && p != "" && OwnsActive(s.registry, p, id)
    ensures var before, t := SourceAt(s.registry, p), Next(s, Report(p, id, closed));
      && before.holder.Updating? && before.holder.id == id
      && Answer(s, Report(p, id, closed)).status == (if closed then Ok else ExternalUpdateNotClosed)
      && SourceAt(t.registry, p) ==
           before.(holder := if closed then Nobody else Updating(id, true),
                   generation := if before.holder.suspect then before.generation else before.generation + 1)
      && (FailedClose(t, p, id) <==> !closed)
  {
    assert EntryOk(s.registry.sources[p]);
    BlockIsStep(s.registry, CompleteAt(p, id, closed), p);
  }

  /** Closing by token reports its id; the token stays active until a report with it succeeds. */
  lemma TokenIsClosed(s: System, w: Handle, closed: bool)
    requires Inv(s) && HasToken(s, w, Active) && s.writers[w].path != ""
    ensures var p, id := s.writers[w].path, s.writers[w].id;
      var t, status := Next(s, Close(w, closed)), Answer(s, Close(w, closed)).status;
      && t.registry == Next(s, Report(p, id, closed)).registry && status == Answer(s, Report(p, id, closed)).status
      && t.writers == s.writers[w := Token(p, id, if status == Ok then Closed else Active)]
      && (OwnsActive(s.registry, p, id) ==> (status == Ok <==> closed))
  {
    if OwnsActive(s.registry, s.writers[w].path, s.writers[w].id) {
      CloseIsReported(s, s.writers[w].path, s.writers[w].id, closed);
    }
  }

  /** A lease that is released is counted no more; one that is abandoned is empty, and its count stays. */
  lemma LeaseIsGivenUp(s: System, h: Handle)
    requires Inv(s) && IsCounted(s, h) && s.leases[h].path != ""
    ensures var p := s.leases[h].path;
      var before, released, abandoned := SourceAt(s.registry, p), Next(s, Release(h)), Next(s, Abandon(h));
      && before.readers > 0 && SourceAt(released.registry, p) == before.(readers := before.readers - 1)
      && released.leases == s.leases[h := s.leases[h].(counted := false)]
      && abandoned.registry == s.registry && abandoned.abandoned[p] == s.abandoned[p] + 1
      && abandoned.leases == s.leases[h := Lease("", s.leases[h].snapshot, false)]
  {
    CountedLeaseIsCounted(s, h);
    BlockIsStep(s.registry, ReleaseAt(s.leases[h].path), s.leases[h].path);
  }

  /** The ids have wrapped once the last number of 64 bits was given out, and not before. */
  lemma WrappedAtTheLast(s: System, a: Action)
    requires !s.wrapped && s.registry.nextTokenId != 0
    ensures Next(s, a).wrapped <==> s.registry.nextTokenId == TWO_64 - 1 && BlockOf(s, a).PublishAt? && Answer(s, a).status == Ok
  {
  }

  // ---- Announcements are counted ---------------------------------------------------------------------

  predicate Announces(s: System, a: Action, p: Path) {
    a.Publish? && a.p == p && Answer(s, a).status == Ok
  }

  /** How often a writer was announced on a path in a run. */
  function Announcements(s: System, actions: seq<Action>, p: Path): nat
    decreases |actions|
  {
    if actions == [] then 0
    else (if Announces(s, actions[0], p) then 1 else 0) + Announcements(Next(s, actions[0]), actions[1..], p)
  }

  lemma EventBlock(r: Registry, b: Block, p: Path)
    requires EntriesOk(r) && p != ""
    ensures var before, after, announced := SourceAt(r, p), SourceAt(Execute(r, b).0, p), b == PublishAt(p) && Execute(r, b).1.status == Ok;
      && after.events == before.events + (if announced then 1 else 0)
      && (after.holder.Announced? && !before.holder.Announced? ==> announced)
  {
    if b.NoBlock? || b.path != p {
      OtherSourcesStay(r, b, p);
    } else {
      BlockIsStep(r, b, p);
    }
  }

  lemma EventStep(s: System, a: Action, p: Path)
    requires Inv(s) && p != ""
    ensures var before, after := SourceAt(s.registry, p), SourceAt(Next(s, a).registry, p);
      && after.events == before.events + (if Announces(s, a, p) then 1 else 0)
      && (after.holder.Announced? && !before.holder.Announced? ==> Announces(s, a, p))
  {
    EventBlock(s.registry, BlockOf(s, a), p);
  }

  /** The event counter counts them, and a source that is announced at the end and was not before has been. */
  lemma {:induction false} EventsAreAnnouncements(s: System, actions: seq<Action>, p: Path)
    requires Inv(s) && p != ""
    ensures var before, after := SourceAt(s.registry, p), SourceAt(Run(s, actions).registry, p);
      && after.events == before.events + Announcements(s, actions, p)
      && (after.holder.Announced? && !before.holder.Announced? ==> Announcements(s, actions, p) > 0)
    decreases |actions|
  {
    if actions == [] {
    } else {
      EventStep(s, actions[0], p);
      InvKept(s, actions[0]);
      EventsAreAnnouncements(Next(s, actions[0]), actions[1..], p);
    }
  }
}
