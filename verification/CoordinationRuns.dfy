/**
 * Any number of readers and writers interleaving the blocks of module Coordination.
 *
 * A state holds the registry and every lease, token and waiting prepare call in the process.  An
 * action is one client running one block under the mutex and storing what it was told; an action its
 * client cannot take leaves the state alone, so a run is any sequence of actions at all.
 */
module CoordinationRuns {
  import opened Bytes
  import opened Coordination

  // ---- One block on the registry ----------------------------------------------------------------

  datatype Block =
    | NoBlock
    | AcquireAt(path: Path)
    | ReleaseAt(path: Path)
    | PublishAt(path: Path)
    | FinishAt(path: Path, id: uint64)
    | OpenAt(path: Path, id: uint64)
    | CancelAt(path: Path, id: uint64)
    | CompleteAt(path: Path, id: uint64, closed: bool)

  datatype Reply = Reply(status: Status, id: uint64, granted: Option<Snapshot>)

  function Execute(r: Registry, b: Block): (Registry, Reply) {
    match b
    case NoBlock => (r, Reply(InvalidCoordinationToken, 0, None))
    case AcquireAt(p) => var (r, granted) := AcquireBlock(r, p); (r, Reply(Ok, 0, granted))
    case ReleaseAt(p) => (ReleaseBlock(r, p), Reply(Ok, 0, None))
    case PublishAt(p) => var (r, status, id) := PublishBlock(r, p); (r, Reply(status, id, None))
    case FinishAt(p, id) => var (r, status) := FinishBlock(r, p, id); (r, Reply(status, id, None))
    case OpenAt(p, id) => var (r, status) := OpenBlock(r, p, id); (r, Reply(status, id, None))
    case CancelAt(p, id) => var (r, status) := CancelBlock(r, p, id); (r, Reply(status, id, None))
    case CompleteAt(p, id, closed) => var (r, status) := CompleteBlock(r, p, id, closed); (r, Reply(status, id, None))
  }

  // ---- The clients -------------------------------------------------------------------------------

  /** Names an object of the program: a lease, a token or a prepare call. */
  type Handle = nat

  datatype Lease = Lease(path: Path, snapshot: Snapshot, counted: bool)

  const EMPTY_LEASE := Lease("", Snapshot(0, 0), false)

  /** A prepare call in its wait, or the token it returned. */
  datatype Writer = Waiting(path: Path, id: uint64) | Token(path: Path, id: uint64, phase: Phase)

  const NO_TOKEN := Token("", 0, Invalid)

  datatype System = System(
    registry: Registry,
    leases: map<Handle, Lease>,
    writers: map<Handle, Writer>,
    abandoned: multiset<Path>,
    wrapped: bool)  // has the 64-bit id counter passed through zero?

  const INITIAL := System(INITIAL_REGISTRY, map[], map[], multiset{}, false)

  datatype Action =
    | Acquire(h: Handle, p: Path)
    | Release(h: Handle)
    | Abandon(h: Handle)                         // closing the backend threw: the count stays behind
    | MoveLease(h: Handle, to: Handle)
    | Publish(w: Handle, p: Path)
    | Finish(w: Handle)                          // the wait is over: drained, or timed out
    | Open(w: Handle)
    | Cancel(w: Handle)
    | Close(w: Handle, closed: bool)
    | Report(p: Path, id: uint64, closed: bool)  // anybody, with any id
    | MoveToken(w: Handle, to: Handle)
    | LoseToken(w: Handle)

  predicate IsCounted(s: System, h: Handle) {
    h in s.leases && s.leases[h].counted
  }

  predicate HasToken(s: System, w: Handle, phase: Phase) {
    w in s.writers && s.writers[w].Token? && s.writers[w].phase == phase
  }

  predicate IsWaiting(s: System, w: Handle) {
    w in s.writers && s.writers[w].Waiting?
  }

  /** Which block the action makes its client run. */
  function BlockOf(s: System, a: Action): Block {
    match a
    case Acquire(h, p) => if h in s.leases then NoBlock else AcquireAt(p)
    case Release(h) => if IsCounted(s, h) then ReleaseAt(s.leases[h].path) else NoBlock
    case Publish(w, p) => if w in s.writers then NoBlock else PublishAt(p)
    case Finish(w) => if IsWaiting(s, w) then FinishAt(s.writers[w].path, s.writers[w].id) else NoBlock
    case Open(w) => if HasToken(s, w, Pending) then OpenAt(s.writers[w].path, s.writers[w].id) else NoBlock
    case Cancel(w) => if HasToken(s, w, Pending) then CancelAt(s.writers[w].path, s.writers[w].id) else NoBlock
    case LoseToken(w) => if HasToken(s, w, Pending) then CancelAt(s.writers[w].path, s.writers[w].id) else NoBlock
    case Close(w, closed) =>
      if HasToken(s, w, Active) then CompleteAt(s.writers[w].path, s.writers[w].id, closed) else NoBlock
    case Report(p, id, closed) => CompleteAt(p, id, closed)
    case Abandon(h) => NoBlock
    case MoveLease(h, to) => NoBlock
    case MoveToken(w, to) => NoBlock
  }

  function LeasesAfter(s: System, a: Action, granted: Option<Snapshot>): map<Handle, Lease> {
    match a
    case Acquire(h, p) =>
      if h !in s.leases && granted.Some? then s.leases[h := Lease(p, granted.value, true)] else s.leases
    case Release(h) =>
      if IsCounted(s, h) then s.leases[h := s.leases[h].(counted := false)] else s.leases
    case Abandon(h) =>
      if IsCounted(s, h) then s.leases[h := s.leases[h].(path := "", counted := false)] else s.leases
    case MoveLease(h, to) =>
      if h in s.leases && to !in s.leases then s.leases[h := EMPTY_LEASE][to := s.leases[h]] else s.leases
    case _ => s.leases
  }

  function WritersAfter(s: System, a: Action, reply: Reply): map<Handle, Writer> {
    match a
    case Publish(w, p) =>
      if w !in s.writers && reply.status == Ok then s.writers[w := Waiting(p, reply.id)] else s.writers
    case Finish(w) =>
      if !IsWaiting(s, w) then s.writers
      else s.writers[w := if reply.status == Ok then Token(s.writers[w].path, s.writers[w].id, Pending) else NO_TOKEN]
    case Open(w) =>
      if HasToken(s, w, Pending) && reply.status == Ok then s.writers[w := s.writers[w].(phase := Active)] else s.writers
    case Cancel(w) =>
      if HasToken(s, w, Pending) && reply.status == Ok then s.writers[w := s.writers[w].(phase := Closed)] else s.writers
    case Close(w, closed) =>
      if HasToken(s, w, Active) && reply.status == Ok then s.writers[w := s.writers[w].(phase := Closed)] else s.writers
    case MoveToken(w, to) =>
      if w in s.writers && s.writers[w].Token? && to !in s.writers then s.writers[w := NO_TOKEN][to := s.writers[w]]
      else s.writers
    case LoseToken(w) =>
      if w in s.writers && s.writers[w].Token? then s.writers[w := NO_TOKEN] else s.writers
    case _ => s.writers
  }

  /** The answer the action's caller gets. */
  function Answer(s: System, a: Action): Reply {
    Execute(s.registry, BlockOf(s, a)).1
  }

  function Next(s: System, a: Action): System {
    var (r, reply) := Execute(s.registry, BlockOf(s, a));
    System(
      r,
      LeasesAfter(s, a, reply.granted),
      WritersAfter(s, a, reply),
      if a.Abandon? && IsCounted(s, a.h) then s.abandoned + multiset{s.leases[a.h].path} else s.abandoned,
      s.wrapped || r.nextTokenId < s.registry.nextTokenId || r.nextTokenId == 0)
  }

  function Run(s: System, actions: seq<Action>): System
    decreases |actions|
  {
    if actions == [] then s else Run(Next(s, actions[0]), actions[1..])
  }

  // ---- What every state keeps --------------------------------------------------------------------

  predicate EntryOk(e: Entry) {
    && !(e.writerPending && e.writerActive)
    && (e.writerTokenId != 0 <==> e.writerPending || e.writerActive)
    && (e.generationInvalidated ==> e.writerActive)
    && (e.generationInvalidated <==> !e.sourceVerified)
    && (e.writerActive ==> e.fastReaderCount == 0)
  }

  ghost predicate EntriesOk(r: Registry) {
    forall p <- r.sources :: EntryOk(r.sources[p])
  }

  /** The leases that are counted on a path. */
  ghost function Holders(leases: map<Handle, Lease>, p: Path): set<Handle> {
    set h | h in leases && leases[h].counted && leases[h].path == p
  }

  ghost predicate CountsOk(s: System) {
    && (forall p <- s.registry.sources ::
      s.registry.sources[p].fastReaderCount == |Holders(s.leases, p)| + s.abandoned[p])
    && (forall p <- s.abandoned :: p in s.registry.sources)
  }

  ghost predicate LeasesOk(s: System) {
    forall h <- s.leases | s.leases[h].counted ::
      && s.leases[h].path in s.registry.sources
      && s.registry.sources[s.leases[h].path].generation == s.leases[h].snapshot.generation
  }

  /** Not yet opened: this writer is the one that published Pending on its path. */
  predicate Preparing(w: Writer) {
    w.Waiting? || w.phase == Pending
  }

  predicate WriterOk(r: Registry, w: Writer) {
    Preparing(w) ==>
      && OwnsPending(r, w.path, w.id)
      && (w.Token? ==> r.sources[w.path].fastReaderCount == 0)
  }

  ghost predicate WritersOk(s: System) {
    && (forall w <- s.writers :: WriterOk(s.registry, s.writers[w]))
    && (forall v <- s.writers, w <- s.writers | v != w && Preparing(s.writers[v]) && Preparing(s.writers[w]) ::
      s.writers[v].path != s.writers[w].path)
  }

  ghost predicate IdsDistinct(r: Registry) {
    forall p <- r.sources, q <- r.sources | p != q && r.sources[p].writerTokenId != 0 ::
      r.sources[p].writerTokenId != r.sources[q].writerTokenId
  }

  /** Until the counter wraps, every id in use is below it. */
  ghost predicate IdsOk(s: System) {
    !s.wrapped ==>
      && s.registry.nextTokenId != 0
      && (forall p <- s.registry.sources :: s.registry.sources[p].writerTokenId < s.registry.nextTokenId)
      && (forall w <- s.writers :: s.writers[w].id < s.registry.nextTokenId)
      && IdsDistinct(s.registry)
  }

  ghost predicate Inv(s: System) {
    EntriesOk(s.registry) && CountsOk(s) && LeasesOk(s) && WritersOk(s) && IdsOk(s)
  }

  lemma EntriesKept(r: Registry, b: Block)
    requires EntriesOk(r)
    ensures EntriesOk(Execute(r, b).0)
  {
    forall p <- Execute(r, b).0.sources
      ensures EntryOk(Execute(r, b).0.sources[p])
    {
      assert p in r.sources ==> EntryOk(r.sources[p]);
    }
  }

  /** What a writer's block never touches: reader counts, and the generation of a path with readers. */
  ghost predicate ReadersUntouched(r: Registry, r': Registry) {
    && r.sources.Keys <= r'.sources.Keys
    && (forall p <- r'.sources ::
      r'.sources[p].fastReaderCount == (if p in r.sources then r.sources[p].fastReaderCount else 0))
    && (forall p <- r.sources | r.sources[p].fastReaderCount > 0 :: r'.sources[p].generation == r.sources[p].generation)
  }

  /** What a reader's block never touches: everything but the counts, which cannot grow under a writer. */
  ghost predicate WritersUntouched(r: Registry, r': Registry) {
    && r.sources.Keys <= r'.sources.Keys
    && r.nextTokenId == r'.nextTokenId
    && (forall p <- r.sources ::
      && r'.sources[p].(fastReaderCount := 0) == r.sources[p].(fastReaderCount := 0)
      && (!Admits(r.sources[p]) ==> r'.sources[p].fastReaderCount <= r.sources[p].fastReaderCount))
    && (forall p <- r'.sources | p !in r.sources :: r'.sources[p].(fastReaderCount := 0) == FRESH_ENTRY)
  }

  predicate ReaderBlock(b: Block) {
    b.AcquireAt? || b.ReleaseAt?
  }

  lemma WriterBlocksLeaveReaders(r: Registry, b: Block)
    requires EntriesOk(r) && !ReaderBlock(b)
    ensures ReadersUntouched(r, Execute(r, b).0)
  {
    if b.CompleteAt? && b.path in r.sources {
      assert EntryOk(r.sources[b.path]);
    }
  }

  lemma {:induction false} ReaderBlockAt(r: Registry, b: Block, p: Path)
    requires ReaderBlock(b) || b.NoBlock?
    ensures var r' := Execute(r, b).0;
      && r.nextTokenId == r'.nextTokenId && (p in r.sources ==> p in r'.sources)
      && (p in r'.sources ==>
            var before, after := Visit(r, p).sources[p], r'.sources[p];
            && after.(fastReaderCount := 0) == before.(fastReaderCount := 0)
            && (!Admits(before) ==> after.fastReaderCount <= before.fastReaderCount))
  {
  }

  lemma {:induction false} ReaderBlocksLeaveWriters(r: Registry, b: Block)
    requires ReaderBlock(b) || b.NoBlock?
    ensures WritersUntouched(r, Execute(r, b).0)
  {
    ReaderBlockAt(r, b, "");
    forall p | p in r.sources || p in Execute(r, b).0.sources
      ensures p in Execute(r, b).0.sources
      ensures var before, after := Visit(r, p).sources[p], Execute(r, b).0.sources[p];
        && after.(fastReaderCount := 0) == before.(fastReaderCount := 0)
        && (!Admits(before) ==> after.fastReaderCount <= before.fastReaderCount)
    {
      ReaderBlockAt(r, b, p);
    }
  }

  predicate ReaderAction(a: Action) {
    a.Acquire? || a.Release? || a.Abandon? || a.MoveLease?
  }

  lemma CountedLeaseIsCounted(s: System, h: Handle)
    requires CountsOk(s) && LeasesOk(s) && IsCounted(s, h)
    ensures s.registry.sources[s.leases[h].path].fastReaderCount > 0
  {
    assert h in Holders(s.leases, s.leases[h].path);
  }

  lemma NoHoldersOfNewPath(s: System, p: Path)
    requires LeasesOk(s) && p !in s.registry.sources
    ensures Holders(s.leases, p) == {}
  {
  }

  lemma {:induction false} WithoutOne(all: set<Handle>, h: Handle)
    ensures |all - {h}| == |all| - (if h in all then 1 else 0)
  {
    if h !in all {
      assert all - {h} == all;
    }
  }

  lemma {:induction false} OthersHold(leases: map<Handle, Lease>, h: Handle, l: Lease, p: Path)
    ensures Holders(leases[h := l], p) - {h} == Holders(leases, p) - {h}
  {
    forall k
      ensures k in Holders(leases[h := l], p) - {h} <==> k in Holders(leases, p) - {h}
    {
    }
  }

  /** One update of one lease moves the count of its path, and of no other, by at most one. */
  lemma {:induction false} HolderCount(leases: map<Handle, Lease>, h: Handle, l: Lease, p: Path)
    ensures var before, after := Holders(leases, p), Holders(leases[h := l], p);
      |after| == |before| - (if h in before then 1 else 0) + (if l.counted && l.path == p then 1 else 0)
  {
    OthersHold(leases, h, l, p);
    WithoutOne(Holders(leases, p), h);
    WithoutOne(Holders(leases[h := l], p), h);
  }

  lemma {:induction false} MovedLeaseCount(leases: map<Handle, Lease>, h: Handle, to: Handle, p: Path)
    requires h in leases && to !in leases
    ensures |Holders(leases[h := EMPTY_LEASE][to := leases[h]], p)| == |Holders(leases, p)|
  {
    HolderCount(leases, h, EMPTY_LEASE, p);
    HolderCount(leases[h := EMPTY_LEASE], to, leases[h], p);
  }

  lemma CountKeptByAcquire(s: System, a: Action, p: Path)
    requires Inv(s) && a.Acquire? && p in Next(s, a).registry.sources
    ensures var s' := Next(s, a);
      s'.registry.sources[p].fastReaderCount == |Holders(s'.leases, p)| + s'.abandoned[p]
  {
    var s' := Next(s, a);
    if p !in s.registry.sources {
      NoHoldersOfNewPath(s, p);
    }
    if s'.leases != s.leases {
      HolderCount(s.leases, a.h, s'.leases[a.h], p);
    }
  }

  lemma CountKeptByRelease(s: System, a: Action, p: Path)
    requires Inv(s) && a.Release? && p in Next(s, a).registry.sources
    ensures var s' := Next(s, a);
      s'.registry.sources[p].fastReaderCount == |Holders(s'.leases, p)| + s'.abandoned[p]
  {
    if IsCounted(s, a.h) {
      CountedLeaseIsCounted(s, a.h);
      HolderCount(s.leases, a.h, Next(s, a).leases[a.h], p);
    }
  }

  lemma CountKeptByReader(s: System, a: Action, p: Path)
    requires Inv(s) && ReaderAction(a) && p in Next(s, a).registry.sources
    ensures var s' := Next(s, a);
      s'.registry.sources[p].fastReaderCount == |Holders(s'.leases, p)| + s'.abandoned[p]
  {
    match a
    case Acquire(h, q) => CountKeptByAcquire(s, a, p);
    case Release(h) => CountKeptByRelease(s, a, p);
    case Abandon(h) =>
      if IsCounted(s, h) {
        HolderCount(s.leases, h, Next(s, a).leases[h], p);
      }
    case MoveLease(h, to) =>
      if h in s.leases && to !in s.leases {
        MovedLeaseCount(s.leases, h, to, p);
      }
  }

  lemma LeaseKeptByReader(s: System, a: Action, h: Handle)
    requires Inv(s) && ReaderAction(a) && IsCounted(Next(s, a), h)
    ensures var s' := Next(s, a);
      && s'.leases[h].path in s'.registry.sources
      && s'.registry.sources[s'.leases[h].path].generation == s'.leases[h].snapshot.generation
  {
    ReaderBlocksLeaveWriters(s.registry, BlockOf(s, a));
    var origin := if a.MoveLease? && h == a.to && h !in s.leases then a.h else h;
    if origin !in s.leases {
      assert a == Acquire(h, a.p);
    } else {
      assert s.leases[origin] == Next(s, a).leases[h];
    }
  }

  lemma ReaderStep(s: System, a: Action)
    requires Inv(s) && ReaderAction(a)
    ensures WritersUntouched(s.registry, Next(s, a).registry) && Next(s, a).writers == s.writers
    ensures CountsOk(Next(s, a)) && LeasesOk(Next(s, a))
  {
    var s' := Next(s, a);
    ReaderBlocksLeaveWriters(s.registry, BlockOf(s, a));
    forall p <- s'.registry.sources
      ensures s'.registry.sources[p].fastReaderCount == |Holders(s'.leases, p)| + s'.abandoned[p]
    {
      CountKeptByReader(s, a, p);
    }
    forall h <- s'.leases | s'.leases[h].counted
      ensures s'.leases[h].path in s'.registry.sources
      ensures s'.registry.sources[s'.leases[h].path].generation == s'.leases[h].snapshot.generation
    {
      LeaseKeptByReader(s, a, h);
    }
  }

  lemma WriterStep(s: System, a: Action)
    requires Inv(s) && !ReaderAction(a)
    ensures ReadersUntouched(s.registry, Next(s, a).registry)
    ensures Next(s, a).leases == s.leases && Next(s, a).abandoned == s.abandoned
    ensures CountsOk(Next(s, a)) && LeasesOk(Next(s, a))
  {
    WriterBlocksLeaveReaders(s.registry, BlockOf(s, a));
    forall p <- Next(s, a).registry.sources | p !in s.registry.sources
      ensures Holders(s.leases, p) == {}
    {
      NoHoldersOfNewPath(s, p);
    }
    forall h <- s.leases | s.leases[h].counted
      ensures s.registry.sources[s.leases[h].path].fastReaderCount > 0
    {
      CountedLeaseIsCounted(s, h);
    }
  }

  lemma OtherPathsUntouched(r: Registry, b: Block, q: Path)
    requires q in r.sources && (b.NoBlock? || b.path != q)
    ensures q in Execute(r, b).0.sources && Execute(r, b).0.sources[q] == r.sources[q]
  {
  }

  /** Publishing on a pending path, and closing a writer that is not active there, change nothing on it. */
  lemma PendingPathUntouched(r: Registry, b: Block)
    requires b.PublishAt? || b.CompleteAt?
    requires b.path in r.sources && EntryOk(r.sources[b.path]) && r.sources[b.path].writerPending
    ensures Execute(r, b).0 == r && Execute(r, b).1.status != Ok
  {
  }

  /** The handle whose writer an action replaces, and where a moved token comes from. */
  function Origin(s: System, a: Action, w: Handle): Handle {
    if a.MoveToken? && w == a.to && w !in s.writers then a.w else w
  }

  predicate Acts(a: Action, w: Handle) {
    (a.Publish? || a.Finish? || a.Open? || a.Cancel? || a.Close? || a.LoseToken?) && a.w == w
  }

  lemma BystanderOk(s: System, a: Action, w: Handle)
    requires Inv(s) && !ReaderAction(a) && w in s.writers && !Acts(a, w)
    ensures WriterOk(Next(s, a).registry, s.writers[w])
  {
    var b := BlockOf(s, a);
    if Preparing(s.writers[w]) {
      assert WriterOk(s.registry, s.writers[w]);
      if b.NoBlock? || b.path != s.writers[w].path {
        OtherPathsUntouched(s.registry, b, s.writers[w].path);
      } else if b.PublishAt? || b.CompleteAt? {
        PendingPathUntouched(s.registry, b);
      }
    }
  }

  lemma PublisherOk(s: System, w: Handle, p: Path)
    requires Inv(s) && w in Next(s, Publish(w, p)).writers
    ensures WriterOk(Next(s, Publish(w, p)).registry, Next(s, Publish(w, p)).writers[w])
  {
    if w in s.writers {
      assert WriterOk(s.registry, s.writers[w]);
    }
  }

  lemma FinisherOk(s: System, w: Handle)
    requires Inv(s) && w in s.writers
    ensures WriterOk(Next(s, Finish(w)).registry, Next(s, Finish(w)).writers[w])
  {
    assert WriterOk(s.registry, s.writers[w]);
  }

  lemma TokenUserOk(s: System, a: Action, w: Handle)
    requires Inv(s) && Acts(a, w) && !a.Publish? && !a.Finish? && w in s.writers
    ensures WriterOk(Next(s, a).registry, Next(s, a).writers[w])
  {
    assert WriterOk(s.registry, s.writers[w]);
  }

  lemma ActorOk(s: System, a: Action, w: Handle)
    requires Inv(s) && Acts(a, w) && w in Next(s, a).writers
    ensures WriterOk(Next(s, a).registry, Next(s, a).writers[w])
  {
    if a.Publish? {
      PublisherOk(s, w, a.p);
    } else if a.Finish? {
      FinisherOk(s, w);
    } else {
      TokenUserOk(s, a, w);
    }
  }

  /** A writer that is preparing was preparing on the same path before, unless it just published. */
  lemma PreparingBefore(s: System, a: Action, w: Handle)
    requires w in Next(s, a).writers && Preparing(Next(s, a).writers[w])
    ensures var o := Origin(s, a, w);
      if o in s.writers then Preparing(s.writers[o]) && s.writers[o].path == Next(s, a).writers[w].path
      else a.Publish? && a.w == w && a.p == Next(s, a).writers[w].path && Answer(s, a).status == Ok
  {
  }

  /** A path that has just been published on is nobody else's. */
  lemma PublishedPathIsFree(s: System, w: Handle, p: Path, u: Handle)
    requires Inv(s) && Answer(s, Publish(w, p)).status == Ok && u in s.writers && Preparing(s.writers[u])
    ensures w !in s.writers ==> s.writers[u].path != p
  {
    assert WriterOk(s.registry, s.writers[u]);
  }

  lemma PreparingApart(s: System, a: Action, v: Handle, w: Handle)
    requires Inv(s) && v in Next(s, a).writers && w in Next(s, a).writers && v != w
    requires Preparing(Next(s, a).writers[v]) && Preparing(Next(s, a).writers[w])
    ensures Next(s, a).writers[v].path != Next(s, a).writers[w].path
  {
    PreparingBefore(s, a, v);
    PreparingBefore(s, a, w);
    var ov, ow := Origin(s, a, v), Origin(s, a, w);
    if ov !in s.writers {
      PublishedPathIsFree(s, v, a.p, ow);
    } else if ow !in s.writers {
      PublishedPathIsFree(s, w, a.p, ov);
    }
  }

  lemma WritersKeptByReader(s: System, a: Action)
    requires Inv(s) && ReaderAction(a)
    ensures WritersOk(Next(s, a))
  {
    var s' := Next(s, a);
    ReaderStep(s, a);
    forall w <- s'.writers
      ensures WriterOk(s'.registry, s'.writers[w])
    {
      assert WriterOk(s.registry, s.writers[w]);
    }
  }

  lemma WriterKept(s: System, a: Action, w: Handle)
    requires Inv(s) && !ReaderAction(a) && w in Next(s, a).writers
    ensures WriterOk(Next(s, a).registry, Next(s, a).writers[w])
  {
    if Acts(a, w) {
      ActorOk(s, a, w);
    } else if Origin(s, a, w) in s.writers {
      BystanderOk(s, a, Origin(s, a, w));
    }
  }

  lemma WritersKept(s: System, a: Action)
    requires Inv(s)
    ensures WritersOk(Next(s, a))
  {
    var s' := Next(s, a);
    if ReaderAction(a) {
      WritersKeptByReader(s, a);
    } else {
      forall w <- s'.writers
        ensures WriterOk(s'.registry, s'.writers[w])
      {
        WriterKept(s, a, w);
      }
      forall v <- s'.writers, w <- s'.writers | v != w && Preparing(s'.writers[v]) && Preparing(s'.writers[w])
        ensures s'.writers[v].path != s'.writers[w].path
      {
        PreparingApart(s, a, v, w);
      }
    }
  }

  lemma IdsStayBelow(r: Registry, b: Block)
    requires forall p <- r.sources :: r.sources[p].writerTokenId < r.nextTokenId
    requires Execute(r, b).0.nextTokenId >= r.nextTokenId > 0
    ensures var r' := Execute(r, b).0;
      forall p <- r'.sources :: r'.sources[p].writerTokenId < r'.nextTokenId
    ensures b.PublishAt? ==> Execute(r, b).1.id < Execute(r, b).0.nextTokenId
  {
  }

  lemma IdsComeFromPublishing(r: Registry, b: Block, p: Path)
    requires p in Execute(r, b).0.sources
    ensures var id := Execute(r, b).0.sources[p].writerTokenId;
      id == 0 || (p in r.sources && r.sources[p].writerTokenId == id) || (b == PublishAt(p) && id == TakeId(r.nextTokenId).0)
  {
  }

  lemma IdsStayDistinct(r: Registry, b: Block)
    requires IdsDistinct(r) && Execute(r, b).0.nextTokenId >= r.nextTokenId > 0
    requires forall p <- r.sources :: r.sources[p].writerTokenId < r.nextTokenId
    ensures IdsDistinct(Execute(r, b).0)
  {
    var r' := Execute(r, b).0;
    forall p <- r'.sources, q <- r'.sources | p != q && r'.sources[p].writerTokenId != 0
      ensures r'.sources[p].writerTokenId != r'.sources[q].writerTokenId
    {
      IdsComeFromPublishing(r, b, p);
      IdsComeFromPublishing(r, b, q);
    }
  }

  lemma WriterIdsKept(s: System, a: Action, w: Handle)
    requires w in Next(s, a).writers
    ensures var o := Origin(s, a, w);
      if o in s.writers then Next(s, a).writers[w].id in {0, s.writers[o].id}
      else BlockOf(s, a).PublishAt? && Next(s, a).writers[w].id == Answer(s, a).id
  {
  }

  lemma IdsKept(s: System, a: Action)
    requires Inv(s)
    ensures IdsOk(Next(s, a))
  {
    var s' := Next(s, a);
    if !s'.wrapped {
      IdsStayBelow(s.registry, BlockOf(s, a));
      IdsStayDistinct(s.registry, BlockOf(s, a));
      forall w <- s'.writers
        ensures s'.writers[w].id < s'.registry.nextTokenId
      {
        WriterIdsKept(s, a, w);
      }
    }
  }

  /** One step keeps every invariant, whoever takes it. */
  lemma InvKept(s: System, a: Action)
    requires Inv(s)
    ensures Inv(Next(s, a))
  {
    EntriesKept(s.registry, BlockOf(s, a));
    if ReaderAction(a) { ReaderStep(s, a); } else { WriterStep(s, a); }
    WritersKept(s, a);
    IdsKept(s, a);
  }

  lemma {:induction false} InvAlways(s: System, actions: seq<Action>)
    requires Inv(s)
    ensures Inv(Run(s, actions))
    decreases |actions|
  {
    if actions == [] {
    } else {
      InvKept(s, actions[0]);
      InvAlways(Next(s, actions[0]), actions[1..]);
    }
  }

  /** The protocol's safety in every state that any interleaving of any clients can reach. */
  lemma RegistrySafety(actions: seq<Action>, p: Path)
    requires p in Run(INITIAL, actions).registry.sources
    ensures var s := Run(INITIAL, actions);
      var e := s.registry.sources[p];
      && (e.writerActive ==> e.fastReaderCount == 0)
      && !(e.writerPending && e.writerActive)
      && (e.writerTokenId != 0 <==> e.writerPending || e.writerActive)
      && (!e.sourceVerified ==> e.writerActive && e.generationInvalidated)
      && e.fastReaderCount == |Holders(s.leases, p)| + s.abandoned[p]
  {
    assert Inv(INITIAL);
    InvAlways(INITIAL, actions);
    assert EntryOk(Run(INITIAL, actions).registry.sources[p]);
  }

  // ---- Readers -------------------------------------------------------------------------------------

  /** Actions on a lease are taken by its holder alone; this one is somebody else's. */
  predicate Touches(a: Action, h: Handle) {
    ((a.Release? || a.Abandon? || a.MoveLease?) && a.h == h) || (a.MoveLease? && a.to == h)
  }

  /** The source is as the lease found it, and no writer is inside. */
  ghost predicate Undisturbed(s: System, l: Lease) {
    && l.path in s.registry.sources
    && s.registry.sources[l.path].generation == l.snapshot.generation
    && !s.registry.sources[l.path].writerActive
    && s.registry.sources[l.path].sourceVerified
  }

  lemma CountedLeaseUndisturbed(s: System, h: Handle)
    requires Inv(s) && IsCounted(s, h)
    ensures Undisturbed(s, s.leases[h])
  {
    CountedLeaseIsCounted(s, h);
    assert EntryOk(s.registry.sources[s.leases[h].path]);
  }

  lemma LeaseStep(s: System, a: Action, h: Handle)
    requires IsCounted(s, h) && !Touches(a, h)
    ensures IsCounted(Next(s, a), h) && Next(s, a).leases[h] == s.leases[h]
  {
  }

  /**
   * While its holder keeps a lease, every interleaving of everybody else leaves the source at the
   * lease's generation with no writer active, at every moment in between.
   */
  lemma {:induction false} LeaseSpan(s: System, actions: seq<Action>, h: Handle, k: nat)
    requires Inv(s) && IsCounted(s, h) && k <= |actions|
    requires forall a <- actions :: !Touches(a, h)
    ensures var t := Run(s, actions[..k]);
      IsCounted(t, h) && t.leases[h] == s.leases[h] && Undisturbed(t, s.leases[h])
    decreases k
  {
    if k == 0 {
      CountedLeaseUndisturbed(s, h);
    } else {
      var rest := actions[1..];
      LeaseStep(s, actions[0], h);
      InvKept(s, actions[0]);
      LeaseSpan(Next(s, actions[0]), rest, h, k - 1);
      RunTake(s, actions, k);
    }
  }

  lemma {:induction false} RunTake(s: System, actions: seq<Action>, k: nat)
    requires 0 < k <= |actions|
    ensures Run(s, actions[..k]) == Run(Next(s, actions[0]), actions[1..][..k - 1])
  {
    assert actions[..k][1..] == actions[1..][..k - 1];
  }

  /** Once a count is abandoned, its source never has an active writer again, and no prepare succeeds there. */
  lemma {:induction false} AbandonedForever(s: System, actions: seq<Action>, p: Path)
    requires Inv(s) && s.abandoned[p] > 0
    ensures var t := Run(s, actions);
      && t.abandoned[p] > 0
      && p in t.registry.sources
      && t.registry.sources[p].fastReaderCount > 0
      && !t.registry.sources[p].writerActive
      && (forall w | IsWaiting(t, w) && t.writers[w].path == p :: Answer(t, Finish(w)).status == ReadersActive)
    decreases |actions|
  {
    if actions == [] {
      assert p in s.abandoned;
      assert EntryOk(s.registry.sources[p]);
    } else {
      InvKept(s, actions[0]);
      AbandonedForever(Next(s, actions[0]), actions[1..], p);
    }
  }

  // ---- Writers -------------------------------------------------------------------------------------

  /** The token id on a path, 0 while no writer is announced there. */
  function WriterOf(s: System, p: Path): uint64 {
    if p in s.registry.sources then s.registry.sources[p].writerTokenId else 0
  }

  function GenerationOf(s: System, p: Path): nat {
    if p in s.registry.sources then s.registry.sources[p].generation else 0
  }

  /** What the current writer has added to the generation so far. */
  function Raised(s: System, p: Path): nat {
    if p in s.registry.sources && s.registry.sources[p].generationInvalidated then 1 else 0
  }

  lemma GenerationStep(r: Registry, b: Block, p: Path)
    requires EntriesOk(r) && p in r.sources
    ensures var r' := Execute(r, b).0;
      && p in r'.sources
      && r.sources[p].generation <= r'.sources[p].generation <= r.sources[p].generation + 1
      && (r.sources[p].writerTokenId != 0 ==> r'.sources[p].writerTokenId in {0, r.sources[p].writerTokenId})
      && (r'.sources[p].writerTokenId == r.sources[p].writerTokenId ==>
            r'.sources[p].generation - r.sources[p].generation ==
              (if r'.sources[p].generationInvalidated then 1 else 0) - (if r.sources[p].generationInvalidated then 1 else 0))
      && (r'.sources[p].writerTokenId == 0 != r.sources[p].writerTokenId ==>
            r'.sources[p].generation - r.sources[p].generation ==
              if r.sources[p].writerActive && !r.sources[p].generationInvalidated then 1 else 0)
  {
    assert EntryOk(r.sources[p]);
  }

  lemma {:induction false} GenerationsNeverDecrease(s: System, actions: seq<Action>, p: Path)
    requires Inv(s)
    ensures GenerationOf(s, p) <= GenerationOf(Run(s, actions), p)
    decreases |actions|
  {
    if actions == [] {
    } else {
      if p in s.registry.sources {
        GenerationStep(s.registry, BlockOf(s, actions[0]), p);
      }
      InvKept(s, actions[0]);
      GenerationsNeverDecrease(Next(s, actions[0]), actions[1..], p);
    }
  }

  /** Every state of the run shows the same writer on the path. */
  predicate SameWriter(s: System, actions: seq<Action>, p: Path, id: uint64)
    decreases |actions|
  {
    WriterOf(s, p) == id && (actions != [] ==> SameWriter(Next(s, actions[0]), actions[1..], p, id))
  }

  lemma {:induction false} WriterSpan(s: System, actions: seq<Action>, p: Path, id: uint64)
    requires Inv(s) && id != 0 && SameWriter(s, actions, p, id)
    ensures WriterOf(Run(s, actions), p) == id
    ensures GenerationOf(Run(s, actions), p) - Raised(Run(s, actions), p) == GenerationOf(s, p) - Raised(s, p)
    ensures Inv(Run(s, actions))
    decreases |actions|
  {
    if actions == [] {
    } else {
      GenerationStep(s.registry, BlockOf(s, actions[0]), p);
      InvKept(s, actions[0]);
      WriterSpan(Next(s, actions[0]), actions[1..], p, id);
    }
  }

  predicate WriterInside(s: System, p: Path) {
    p in s.registry.sources && s.registry.sources[p].writerActive
  }

  lemma PublishEffect(s: System, w: Handle, p: Path)
    requires Inv(s) && w !in s.writers && Answer(s, Publish(w, p)).status == Ok
    ensures var t := Next(s, Publish(w, p));
      var before := Visit(s.registry, p).sources[p];
      && Inv(t)
      && IsWaiting(t, w) && t.writers[w] == Waiting(p, Answer(s, Publish(w, p)).id)
      && WriterOf(t, p) == Answer(s, Publish(w, p)).id != 0
      && GenerationOf(t, p) == GenerationOf(s, p) && Raised(t, p) == 0
      && !before.writerPending && before.writerTokenId == 0
      && p in t.registry.sources
      && t.registry.sources[p] == before.(writerPending := true, pendingEvents := before.pendingEvents + 1,
                                          writerTokenId := WriterOf(t, p))
  {
    InvKept(s, Publish(w, p));
    var before := Visit(s.registry, p).sources[p];
    assert EntryOk(before);
  }

  /**
   * One writer, from the publication of its Pending to the action that ends it: the generation has gone
   * up by exactly one if it was ever open and by nothing if it was withdrawn, and never by more than one
   * in between, whatever closes were reported and however often they failed.
   */
  lemma WriterLifetime(s: System, w: Handle, p: Path, actions: seq<Action>, last: Action)
    requires Inv(s) && w !in s.writers && Answer(s, Publish(w, p)).status == Ok
    requires var published := Next(s, Publish(w, p));
      && SameWriter(published, actions, p, Answer(s, Publish(w, p)).id)
      && WriterOf(Next(Run(published, actions), last), p) == 0
    ensures var open := Run(Next(s, Publish(w, p)), actions);
      var ended := Next(open, last);
      && GenerationOf(open, p) <= GenerationOf(s, p) + 1
      && GenerationOf(ended, p) == GenerationOf(s, p) + (if WriterInside(open, p) then 1 else 0)
  {
    var published := Next(s, Publish(w, p));
    PublishEffect(s, w, p);
    WriterSpan(published, actions, p, Answer(s, Publish(w, p)).id);
    var open := Run(published, actions);
    GenerationStep(open.registry, BlockOf(open, last), p);
    assert EntryOk(open.registry.sources[p]);
  }

  /** One lifetime as the registry shows it: published, drained at once, opened, and its close reported as failed. */
  lemma {:induction false} LifetimeOpens(w: Handle, p: Path)
    requires p != ""
    ensures Answer(INITIAL, Publish(w, p)) == Reply(Ok, 1, None)
    ensures var s1 := Next(INITIAL, Publish(w, p));
      var s2 := Next(s1, Finish(w));
      var s3 := Next(s2, Open(w));
      && WriterOf(s1, p) == WriterOf(s2, p) == WriterOf(s3, p) == 1
      && HasToken(s3, w, Active) && s3.writers[w].path == p && s3.writers[w].id == 1
      && OwnsActive(s3.registry, p, 1)
  {
    var s1 := Next(INITIAL, Publish(w, p));
    var s2 := Next(s1, Finish(w));
    assert IsWaiting(s1, w) && s1.writers[w] == Waiting(p, 1);
    assert HasToken(s2, w, Pending) && s2.writers[w] == Token(p, 1, Pending);
  }

  lemma {:induction false} LifetimeCloses(s: System, w: Handle, p: Path)
    requires p != "" && HasToken(s, w, Active) && s.writers[w].path == p && s.writers[w].id == 1 && OwnsActive(s.registry, p, 1)
    ensures WriterOf(Next(s, Close(w, false)), p) == 1
    ensures WriterOf(Next(Next(s, Close(w, false)), Report(p, 1, true)), p) == 0
  {
  }

  /** There are such lifetimes: drained at once, opened, a close that fails, and the saved id reported closed. */
  lemma {:induction false} AWriterLifetime(w: Handle, p: Path)
    requires p != ""
    ensures var published, actions, last := Next(INITIAL, Publish(w, p)), [Finish(w), Open(w), Close(w, false)], Report(p, 1, true);
      && Answer(INITIAL, Publish(w, p)) == Reply(Ok, 1, None)
      && SameWriter(published, actions, p, 1)
      && WriterOf(Next(Run(published, actions), last), p) == 0
  {
    LifetimeOpens(w, p);
    LifetimeCloses(Next(Next(Next(INITIAL, Publish(w, p)), Finish(w)), Open(w)), w, p);
    ThreeSteps(Next(INITIAL, Publish(w, p)), Finish(w), Open(w), Close(w, false), p, 1);
  }

  lemma {:induction false} ThreeSteps(s: System, a: Action, b: Action, c: Action, p: Path, id: uint64)
    ensures Run(s, [a, b, c]) == Next(Next(Next(s, a), b), c)
    ensures WriterOf(s, p) == WriterOf(Next(s, a), p) == WriterOf(Next(Next(s, a), b), p) == WriterOf(Next(Next(Next(s, a), b), c), p) == id
        ==> SameWriter(s, [a, b, c], p, id)
  {
    assert [a, b, c][1..] == [b, c] && [b, c][1..] == [c] && [c][1..] == [];
    var t := Next(Next(s, a), b);
    assert Run(t, [c]) == Next(t, c) && (WriterOf(t, p) == WriterOf(Next(t, c), p) == id ==> SameWriter(t, [c], p, id));
    assert Run(Next(s, a), [b, c]) == Run(t, [c]);
  }

  /** An id that was given out and is nobody's any more. */
  ghost predicate Retired(s: System, id: uint64) {
    0 < id < s.registry.nextTokenId && forall p <- s.registry.sources :: s.registry.sources[p].writerTokenId != id
  }

  /** Whoever still holds a retired id, by token, by copy or by note, can no longer change anything with it. */
  lemma {:induction false} RetiredForever(s: System, actions: seq<Action>, id: uint64, p: Path, closed: bool)
    requires Inv(s) && Retired(s, id) && !s.wrapped && !Run(s, actions).wrapped
    ensures var r := Run(s, actions).registry;
      && CompleteBlock(r, p, id, closed) == (r, InvalidCoordinationToken)
      && OpenBlock(r, p, id) == (r, InvalidCoordinationToken)
      && CancelBlock(r, p, id) == (r, InvalidCoordinationToken)
    decreases |actions|
  {
    if actions == [] {
    } else {
      var t := Next(s, actions[0]);
      if t.wrapped { WrappedForever(t, actions[1..]); }
      forall q <- t.registry.sources
        ensures t.registry.sources[q].writerTokenId != id
      {
        IdsComeFromPublishing(s.registry, BlockOf(s, actions[0]), q);
      }
      InvKept(s, actions[0]);
      RetiredForever(t, actions[1..], id, p, closed);
    }
  }

  lemma {:induction false} WrappedForever(s: System, actions: seq<Action>)
    requires s.wrapped
    ensures Run(s, actions).wrapped
    decreases |actions|
  {
    if actions == [] {
    } else {
      WrappedForever(Next(s, actions[0]), actions[1..]);
    }
  }

  /** A block that ends the writer of a path leaves its id nowhere. */
  lemma EndedIdIsNowhere(r: Registry, b: Block, p: Path)
    requires p in r.sources && r.sources[p].writerTokenId != 0 && p in Execute(r, b).0.sources
    requires Execute(r, b).0.sources[p].writerTokenId == 0
    requires IdsDistinct(r) && r.sources[p].writerTokenId < r.nextTokenId
    ensures forall q <- Execute(r, b).0.sources :: Execute(r, b).0.sources[q].writerTokenId != r.sources[p].writerTokenId
    ensures Execute(r, b).0.nextTokenId == r.nextTokenId
  {
    forall q <- Execute(r, b).0.sources
      ensures Execute(r, b).0.sources[q].writerTokenId != r.sources[p].writerTokenId
    {
      IdsComeFromPublishing(r, b, q);
    }
  }

  /** Every way a writer can end retires its id: withdrawn, timed out or closed, by token or by report. */
  lemma EndedWritersAreRetired(s: System, a: Action, p: Path)
    requires Inv(s) && !s.wrapped && WriterOf(s, p) != 0 && WriterOf(Next(s, a), p) != WriterOf(s, p)
    ensures WriterOf(Next(s, a), p) == 0 && Retired(Next(s, a), WriterOf(s, p))
  {
    GenerationStep(s.registry, BlockOf(s, a), p);
    EndedIdIsNowhere(s.registry, BlockOf(s, a), p);
  }

  // ---- Fail closed ---------------------------------------------------------------------------------

  /** A close of this writer was reported as not done. */
  predicate FailedClose(s: System, p: Path, id: uint64) {
    OwnsActive(s.registry, p, id) && !s.registry.sources[p].sourceVerified
  }

  lemma FailedCloseStep(r: Registry, b: Block, p: Path, id: uint64)
    requires EntriesOk(r) && OwnsActive(r, p, id) && !r.sources[p].sourceVerified && b != CompleteAt(p, id, true)
    ensures OwnsActive(Execute(r, b).0, p, id) && Execute(r, b).0.sources[p] == r.sources[p]
  {
    assert EntryOk(r.sources[p]);
  }

  /** Nobody reports this writer closed: neither its token nor anyone who knows the id. */
  predicate NeverReportedClosed(s: System, actions: seq<Action>, p: Path, id: uint64)
    decreases |actions|
  {
    actions != [] ==>
      && BlockOf(s, actions[0]) != CompleteAt(p, id, true)
      && NeverReportedClosed(Next(s, actions[0]), actions[1..], p, id)
  }

  /** After a failed close the source admits nobody, for as long as the same id does not report success. */
  lemma {:induction false} FailClosed(s: System, actions: seq<Action>, p: Path, id: uint64, h: Handle)
    requires Inv(s) && FailedClose(s, p, id) && NeverReportedClosed(s, actions, p, id)
    ensures var t := Run(s, actions);
      && FailedClose(t, p, id)
      && t.registry.sources[p] == s.registry.sources[p]
      && Answer(t, Acquire(h, p)).granted.None?
      && Answer(t, Publish(h, p)).status != Ok
    decreases |actions|
  {
    if actions != [] {
      FailedCloseStep(s.registry, BlockOf(s, actions[0]), p, id);
      InvKept(s, actions[0]);
      FailClosed(Next(s, actions[0]), actions[1..], p, id, h);
    } else {
      assert EntryOk(s.registry.sources[p]);
    }
  }

  /** And the report of success with that id, even without the token, opens the source again at once. */
  lemma Recovery(s: System, p: Path, id: uint64)
    requires Inv(s) && p != "" && FailedClose(s, p, id)
    ensures var t := Next(s, Report(p, id, true));
      && Admits(t.registry.sources[p])
      && Answer(s, Report(p, id, true)).status == Ok
      && GenerationOf(t, p) == GenerationOf(s, p)
      && AcquireBlock(t.registry, p).1.Some?
  {
    assert EntryOk(s.registry.sources[p]);
  }

  // ---- Draining --------------------------------------------------------------------------------------

  /** Under an announced writer the reader count never rises. */
  lemma ReadersOnlyLeave(s: System, a: Action, p: Path)
    requires Inv(s) && WriterOf(s, p) != 0
    ensures p in Next(s, a).registry.sources
    ensures Next(s, a).registry.sources[p].fastReaderCount <= s.registry.sources[p].fastReaderCount
  {
    assert EntryOk(s.registry.sources[p]);
    if ReaderAction(a) { ReaderStep(s, a); } else { WriterStep(s, a); }
  }

  /** From the publication of a writer to its end the reader count only falls, whoever does what. */
  lemma {:induction false} ReadersDrain(s: System, actions: seq<Action>, p: Path, id: uint64)
    requires Inv(s) && id != 0 && SameWriter(s, actions, p, id)
    ensures p in s.registry.sources && p in Run(s, actions).registry.sources
    ensures Run(s, actions).registry.sources[p].fastReaderCount <= s.registry.sources[p].fastReaderCount
    decreases |actions|
  {
    if actions == [] {
    } else {
      ReadersOnlyLeave(s, actions[0], p);
      InvKept(s, actions[0]);
      ReadersDrain(Next(s, actions[0]), actions[1..], p, id);
    }
  }

  /** A token that prepare returned always opens, and can always be withdrawn instead. */
  lemma PreparedTokenOpens(s: System, w: Handle)
    requires Inv(s) && HasToken(s, w, Pending)
    ensures Answer(s, Open(w)).status == Ok && HasToken(Next(s, Open(w)), w, Active)
    ensures Answer(s, Cancel(w)).status == Ok && HasToken(Next(s, Cancel(w)), w, Closed)
  {
    assert WriterOk(s.registry, s.writers[w]);
  }

  /** While a writer prepares, nobody else changes its path, except that readers leave. */
  lemma PreparingStep(s: System, a: Action, w: Handle)
    requires Inv(s) && w in s.writers && Preparing(s.writers[w]) && !Acts(a, w) && !(a.MoveToken? && a.w == w)
    ensures Next(s, a).writers[w] == s.writers[w]
    ensures var p := s.writers[w].path;
      && p in Next(s, a).registry.sources
      && Next(s, a).registry.sources[p].(fastReaderCount := 0) == s.registry.sources[p].(fastReaderCount := 0)
      && Next(s, a).registry.sources[p].fastReaderCount <= s.registry.sources[p].fastReaderCount
  {
    var p := s.writers[w].path;
    assert WriterOk(s.registry, s.writers[w]);
    ReadersOnlyLeave(s, a, p);
    if ReaderAction(a) {
      ReaderStep(s, a);
    } else {
      var b := BlockOf(s, a);
      if b.NoBlock? || b.path != p {
        OtherPathsUntouched(s.registry, b, p);
      } else {
        PendingPathUntouched(s.registry, b);
      }
    }
  }

  lemma {:induction false} PreparingSpan(s: System, actions: seq<Action>, w: Handle)
    requires Inv(s) && IsWaiting(s, w) && forall a <- actions :: !Acts(a, w)
    ensures var t := Run(s, actions);
      var p := s.writers[w].path;
      && Inv(t)
      && w in t.writers && t.writers[w] == s.writers[w]
      && p in s.registry.sources && p in t.registry.sources
      && t.registry.sources[p].(fastReaderCount := 0) == s.registry.sources[p].(fastReaderCount := 0)
      && t.registry.sources[p].fastReaderCount <= s.registry.sources[p].fastReaderCount
    decreases |actions|
  {
    assert WriterOk(s.registry, s.writers[w]);
    if actions == [] {
    } else {
      var a := actions[0];
      if a.MoveToken? && a.w == w {
        assert Next(s, a).registry == s.registry && Next(s, a).writers == s.writers;
      } else {
        PreparingStep(s, a, w);
      }
      InvKept(s, a);
      PreparingSpan(Next(s, a), actions[1..], w);
    }
  }

  lemma TimedOutFinish(s: System, w: Handle)
    requires Inv(s) && IsWaiting(s, w) && Answer(s, Finish(w)).status != Ok
    ensures var p := s.writers[w].path;
      && p in s.registry.sources && p in Next(s, Finish(w)).registry.sources
      && Next(s, Finish(w)).registry.sources[p] == s.registry.sources[p].(writerPending := false, writerTokenId := 0)
      && s.registry.sources[p].fastReaderCount > 0
  {
    assert WriterOk(s.registry, s.writers[w]);
  }

  /**
   * A prepare call that times out, whatever the others did during its wait: readers are still there, and
   * the path is as if it had never asked, but for one more pending event and the readers that left.
   */
  lemma TimedOutPrepare(s: System, w: Handle, p: Path, actions: seq<Action>)
    requires Inv(s) && w !in s.writers && Answer(s, Publish(w, p)).status == Ok
    requires forall a <- actions :: !Acts(a, w)
    requires Answer(Run(Next(s, Publish(w, p)), actions), Finish(w)).status != Ok
    ensures var t := Next(Run(Next(s, Publish(w, p)), actions), Finish(w));
      var before, after := Visit(s.registry, p).sources[p], Observe(t.registry, p);
      && 0 < after.fastReaderCount <= before.fastReaderCount
      && after == before.(pendingEvents := before.pendingEvents + 1, fastReaderCount := after.fastReaderCount)
  {
    PublishEffect(s, w, p);
    PreparingSpan(Next(s, Publish(w, p)), actions, w);
    TimedOutFinish(Run(Next(s, Publish(w, p)), actions), w);
  }
}
