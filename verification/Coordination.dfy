/**
 * The process-wide registry that lets fast readers and external writers share a source.
 *
 * Every block that the program runs under the registry mutex is one function here, from the registry
 * before to the registry after (and the block's answer).  The classes below run those blocks in place;
 * module CoordinationRuns lets any number of clients interleave them.
 */
module Coordination {
  import opened Bytes

  /** A normalised path; the empty string is the answer for a path that has no normal form. */
  type Path = string

  datatype Entry = Entry(
    writerPending: bool,
    writerActive: bool,
    sourceVerified: bool,
    generationInvalidated: bool,
    generation: nat,
    pendingEvents: nat,
    fastReaderCount: nat,
    writerTokenId: uint64)

  const FRESH_ENTRY := Entry(false, false, true, false, 0, 0, 0, 0)

  datatype Registry = Registry(sources: map<Path, Entry>, nextTokenId: uint64)

  const INITIAL_REGISTRY := Registry(map[], 1)

  datatype Status =
    | Ok
    | ReadersActive
    | WriterAlreadyPending
    | WriterAlreadyActive
    | InvalidCoordinationToken
    | ExternalUpdateNotClosed

  /** What a lease remembers of its source at the moment it was granted. */
  datatype Snapshot = Snapshot(generation: nat, pendingEvents: nat)

  predicate Admits(e: Entry) {
    !e.writerPending && !e.writerActive && e.sourceVerified
  }

  /** Indexing the table creates a default entry for a path it has not seen. */
  function Visit(r: Registry, p: Path): Registry {
    if p in r.sources then r else r.(sources := r.sources[p := FRESH_ENTRY])
  }

  function Put(r: Registry, p: Path, e: Entry): Registry {
    r.(sources := r.sources[p := e])
  }

  /** What a caller asking for the state of a path is shown. */
  function Observe(r: Registry, p: Path): Entry {
    if p != "" && p in r.sources then r.sources[p] else FRESH_ENTRY
  }

  // ---- Blocks run under the mutex -------------------------------------------------------------

  function AcquireBlock(r: Registry, p: Path): (Registry, Option<Snapshot>) {
    if p == "" then (r, None)
    else
      var r := Visit(r, p);
      var e := r.sources[p];
      if !Admits(e) then (r, None)
      else (Put(r, p, e.(fastReaderCount := e.fastReaderCount + 1)), Some(Snapshot(e.generation, e.pendingEvents)))
  }

  function ReleaseBlock(r: Registry, p: Path): Registry {
    if p in r.sources && r.sources[p].fastReaderCount > 0
    then Put(r, p, r.sources[p].(fastReaderCount := r.sources[p].fastReaderCount - 1))
    else r
  }

  /** The lease's own safe-point question: must the reader stop using what it opened? */
  predicate ExpiredAt(r: Registry, p: Path, generation: nat) {
    p == "" || p !in r.sources || !Admits(r.sources[p]) || r.sources[p].generation != generation
  }

  predicate PendingObserved(r: Registry, p: Path, pendingEvents: nat) {
    p != "" && p in r.sources && r.sources[p].pendingEvents != pendingEvents
  }

  /** The 64-bit counter after taking one id; the id 0 means "no Writer" and is skipped. */
  function TakeId(next: uint64): (taken: (uint64, uint64))
    ensures taken.0 != 0
    ensures taken.1 != 0 ==> taken.1 > taken.0 >= next
  {
    var after := (next + 1) % TWO_64;
    if next != 0 then (next, after) else (after, (after + 1) % TWO_64)
  }

  /** Ids are the numbers from 1 on, one after another, and from 1 again after the last of 64 bits. */
  lemma IdsFollow(next: uint64)
    ensures var (id, after) := TakeId(next);
      && id == (if next == 0 then 1 else next)
      && TakeId(after).0 == (if id == TWO_64 - 1 then 1 else id + 1)
  {
  }

  /** First half of prepare_external_update: refuse, or publish Pending under a new id. */
  function PublishBlock(r: Registry, p: Path): (Registry, Status, uint64) {
    if p == "" then (r, InvalidCoordinationToken, 0)
    else
      var r := Visit(r, p);
      var e := r.sources[p];
      if e.writerPending then (r, WriterAlreadyPending, 0)
      else if e.writerActive then (r, WriterAlreadyActive, 0)
      else
        var (id, next) := TakeId(r.nextTokenId);
        var e := e.(writerPending := true, pendingEvents := e.pendingEvents + 1, writerTokenId := id);
        (Put(r, p, e).(nextTokenId := next), Ok, id)
  }

  predicate OwnsPending(r: Registry, p: Path, id: uint64) {
    p in r.sources && r.sources[p].writerPending && r.sources[p].writerTokenId == id
  }

  predicate Drained(r: Registry, p: Path, id: uint64) {
    OwnsPending(r, p, id) && r.sources[p].fastReaderCount == 0
  }

  /** Second half, after the wait: keep Pending for the new token, or withdraw it. */
  function FinishBlock(r: Registry, p: Path, id: uint64): (Registry, Status) {
    var r := Visit(r, p);
    var e := r.sources[p];
    if Drained(r, p, id) then (r, Ok)
    else if OwnsPending(r, p, id) then
      (Put(r, p, e.(writerPending := false, writerTokenId := 0)), ReadersActive)
    else (r, ReadersActive)
  }

  function OpenBlock(r: Registry, p: Path, id: uint64): (Registry, Status) {
    if !OwnsPending(r, p, id) then (r, InvalidCoordinationToken)
    else if r.sources[p].fastReaderCount != 0 then (r, ReadersActive)
    else
      var e := r.sources[p].(writerPending := false, writerActive := true, generationInvalidated := false);
      (Put(r, p, e), Ok)
  }

  function CancelBlock(r: Registry, p: Path, id: uint64): (Registry, Status) {
    if !OwnsPending(r, p, id) then (r, InvalidCoordinationToken)
    else (Put(r, p, r.sources[p].(writerPending := false, writerTokenId := 0)), Ok)
  }

  predicate OwnsActive(r: Registry, p: Path, id: uint64) {
    p in r.sources && r.sources[p].writerActive && r.sources[p].writerTokenId == id
  }

  function Invalidate(e: Entry): Entry {
    if e.generationInvalidated then e
    else e.(generation := e.generation + 1, generationInvalidated := true)
  }

  function CompleteBlock(r: Registry, p: Path, id: uint64, closed: bool): (Registry, Status) {
    if p == "" || id == 0 || !OwnsActive(r, p, id) then (r, InvalidCoordinationToken)
    else
      var e := Invalidate(r.sources[p]);
      if !closed then (Put(r, p, e.(sourceVerified := false)), ExternalUpdateNotClosed)
      else
        var e := e.(writerActive := false, writerTokenId := 0, generationInvalidated := false, sourceVerified := true);
        (Put(r, p, e), Ok)
  }

  // ---- The objects that run the blocks ---------------------------------------------------------

  class CoordinatorRegistry {
    var sources: map<Path, Entry>
    var nextTokenId: uint64

    constructor ()
      ensures View() == INITIAL_REGISTRY
    {
      sources, nextTokenId := map[], 1;
    }

    function View(): Registry
      reads this
    {
      Registry(sources, nextTokenId)
    }

    /** Answers with the token id given out, 0 when the request is refused, and then the readers it met. */
    method PublishPending(p: Path) returns (status: Status, id: uint64, activeReaders: nat)
      modifies this
      ensures (View(), status, id) == PublishBlock(old(View()), p)
      ensures activeReaders ==
        if status in {WriterAlreadyPending, WriterAlreadyActive} then Observe(old(View()), p).fastReaderCount else 0
    {
      if p == "" {
        return InvalidCoordinationToken, 0, 0;
      }
      if p !in sources {
        sources := sources[p := FRESH_ENTRY];
      }
      if sources[p].writerPending {
        return WriterAlreadyPending, 0, sources[p].fastReaderCount;
      }
      if sources[p].writerActive {
        return WriterAlreadyActive, 0, sources[p].fastReaderCount;
      }
      activeReaders := 0;
      id := nextTokenId;
      nextTokenId := (nextTokenId + 1) % TWO_64;
      if id == 0 {
        id := nextTokenId;
        nextTokenId := (nextTokenId + 1) % TWO_64;
      }
      var e := sources[p];
      sources := sources[p := e.(writerPending := true, pendingEvents := e.pendingEvents + 1, writerTokenId := id)];
      status := Ok;
    }
  }

  method CompleteExternalUpdate(registry: CoordinatorRegistry?, p: Path, id: uint64, closed: bool)
    returns (status: Status)
    modifies registry
    ensures registry == null ==> status == InvalidCoordinationToken
    ensures registry != null ==> (registry.View(), status) == CompleteBlock(old(registry.View()), p, id, closed)
  {
    if registry == null || p == "" || id == 0 {
      return InvalidCoordinationToken;
    }
    if p !in registry.sources || !registry.sources[p].writerActive || registry.sources[p].writerTokenId != id {
      return InvalidCoordinationToken;
    }
    var e := registry.sources[p];
    if !e.generationInvalidated {
      e := e.(generation := e.generation + 1);
      e := e.(generationInvalidated := true);
    }
    if !closed {
      e := e.(sourceVerified := false);
      status := ExternalUpdateNotClosed;
    } else {
      e := e.(writerActive := false, writerTokenId := 0);
      e := e.(generationInvalidated := false, sourceVerified := true);
      status := Ok;
    }
    registry.sources := registry.sources[p := e];
  }

  class FastReaderLease {
    var registry: CoordinatorRegistry?
    var path: Path
    var generation: nat
    var pendingEvents: nat
    var counted: bool

    predicate Valid()
      reads this
    {
      counted ==> registry != null && path != ""
    }

    constructor Empty()
      ensures Valid() && !counted && registry == null && path == "" && generation == 0
    {
      registry, path, generation, pendingEvents, counted := null, "", 0, 0, false;
    }

    constructor Granted(r: CoordinatorRegistry, p: Path, s: Snapshot)
      requires p != ""
      ensures Valid() && counted && registry == r && path == p
      ensures generation == s.generation && pendingEvents == s.pendingEvents
    {
      registry, path, generation, pendingEvents, counted := r, p, s.generation, s.pendingEvents, true;
    }

    method ExpiredAtSafePoint() returns (expired: bool)
      ensures expired == (registry == null || ExpiredAt(registry.View(), path, generation))
    {
      if registry == null || path == "" || path !in registry.sources {
        return true;
      }
      var e := registry.sources[path];
      expired := e.writerPending || e.writerActive || !e.sourceVerified || e.generation != generation;
    }

    method WriterPendingObserved() returns (seen: bool)
      ensures seen == (registry != null && PendingObserved(registry.View(), path, pendingEvents))
    {
      if registry == null || path == "" || path !in registry.sources {
        return false;
      }
      seen := registry.sources[path].pendingEvents != pendingEvents;
    }

    /** Gives the count back once; a second release changes nothing. */
    method Release()
      requires Valid()
      modifies this`counted, registry
      ensures Valid() && !counted
      ensures registry != null ==>
        registry.View() == if old(counted) then ReleaseBlock(old(registry.View()), path) else old(registry.View())
    {
      if !counted {
        return;
      }
      if path in registry.sources && registry.sources[path].fastReaderCount > 0 {
        var e := registry.sources[path];
        registry.sources := registry.sources[path := e.(fastReaderCount := e.fastReaderCount - 1)];
      }
      counted := false;
    }

    /** Forgets the lease but leaves its count in the registry, for good. */
    method AbandonFailClosed()
      modifies this
      ensures Valid() && !counted && registry == null && path == "" && generation == old(generation)
    {
      counted := false;
      registry := null;
      path := "";
    }

    /** Move assignment: what this lease held is released, then the other's count moves here; to itself, nothing. */
    method MoveFrom(other: FastReaderLease)
      requires Valid() && other.Valid()
      modifies this, other, registry
      ensures Valid() && other.Valid()
      ensures this == other ==> unchanged(this) && (registry != null ==> unchanged(registry))
      ensures this != other ==>
        && registry == old(other.registry) && path == old(other.path) && counted == old(other.counted)
        && generation == old(other.generation) && pendingEvents == old(other.pendingEvents)
        && !other.counted && other.registry == null && other.generation == 0
      ensures this != other && old(registry) != null ==>
        old(registry).View() == (if old(counted) then ReleaseBlock(old(registry.View()), old(path)) else old(registry.View()))
    {
      if this == other {
        return;
      }
      Release();
      registry, path, generation := other.registry, other.path, other.generation;
      pendingEvents, counted := other.pendingEvents, other.counted;
      other.registry, other.path, other.generation := null, "", 0;
      other.pendingEvents, other.counted := 0, false;
    }
  }

  datatype Phase = Invalid | Pending | Active | Closed

  class ExternalUpdateToken {
    var registry: CoordinatorRegistry?
    var path: Path
    var tokenId: uint64
    var phase: Phase

    constructor Prepared(r: CoordinatorRegistry, p: Path, id: uint64)
      ensures registry == r && path == p && tokenId == id && phase == Pending
    {
      registry, path, tokenId, phase := r, p, id, Pending;
    }

    method NotifyUpdateOpened() returns (status: Status)
      modifies this`phase, registry
      ensures old(phase) != Pending || registry == null ==> status == InvalidCoordinationToken
      ensures old(phase) != Pending && registry != null ==> registry.View() == old(registry.View())
      ensures old(phase) == Pending && registry != null ==>
        (registry.View(), status) == OpenBlock(old(registry.View()), path, tokenId)
      ensures phase == if status == Ok then Active else old(phase)
    {
      if phase != Pending || registry == null {
        return InvalidCoordinationToken;
      }
      if path !in registry.sources || !registry.sources[path].writerPending ||
         registry.sources[path].writerTokenId != tokenId {
        return InvalidCoordinationToken;
      }
      var e := registry.sources[path];
      if e.fastReaderCount != 0 {
        return ReadersActive;
      }
      registry.sources := registry.sources[path :=
        e.(writerPending := false, writerActive := true, generationInvalidated := false)];
      phase := Active;
      status := Ok;
    }

    method CancelBeforeUpdate() returns (status: Status)
      modifies this`phase, registry
      ensures old(phase) != Pending || registry == null ==> status == InvalidCoordinationToken
      ensures old(phase) != Pending && registry != null ==> registry.View() == old(registry.View())
      ensures old(phase) == Pending && registry != null ==>
        (registry.View(), status) == CancelBlock(old(registry.View()), path, tokenId)
      ensures phase == if status == Ok then Closed else old(phase)
    {
      if phase != Pending || registry == null {
        return InvalidCoordinationToken;
      }
      if path !in registry.sources || !registry.sources[path].writerPending ||
         registry.sources[path].writerTokenId != tokenId {
        return InvalidCoordinationToken;
      }
      var e := registry.sources[path];
      registry.sources := registry.sources[path := e.(writerPending := false, writerTokenId := 0)];
      phase := Closed;
      status := Ok;
    }

    method NotifyUpdateClosed(closed: bool) returns (status: Status)
      modifies this`phase, registry
      ensures old(phase) != Active || registry == null ==> status == InvalidCoordinationToken
      ensures old(phase) != Active && registry != null ==> registry.View() == old(registry.View())
      ensures old(phase) == Active && registry != null ==>
        (registry.View(), status) == CompleteBlock(old(registry.View()), path, tokenId, closed)
      ensures phase == if status == Ok then Closed else old(phase)
    {
      if phase != Active || registry == null {
        return InvalidCoordinationToken;
      }
      status := CompleteExternalUpdate(registry, path, tokenId, closed);
      if status == Ok {
        phase := Closed;
      }
    }

    /** Destruction: a Pending is withdrawn, an Active is never cleared by guesswork. */
    method AbandonCurrentState()
      modifies this, registry
      ensures registry == null && phase == Invalid && tokenId == 0
      ensures old(registry) != null ==>
        old(registry).View() ==
        (if old(phase) == Pending then CancelBlock(old(registry.View()), old(path), old(tokenId)).0 else old(registry.View()))
    {
      if phase == Pending {
        var _ := CancelBeforeUpdate();
      }
      registry, path, tokenId, phase := null, "", 0, Invalid;
    }

    method MoveFrom(other: ExternalUpdateToken)
      modifies this, other, registry
      ensures this == other ==> unchanged(this) && (registry != null ==> unchanged(registry))
      ensures this != other ==>
        && registry == old(other.registry) && path == old(other.path)
        && tokenId == old(other.tokenId) && phase == old(other.phase)
        && other.registry == null && other.phase == Invalid && other.tokenId == 0
      ensures this != other && old(registry) != null ==>
        old(registry).View() ==
        (if old(phase) == Pending then CancelBlock(old(registry.View()), old(path), old(tokenId)).0 else old(registry.View()))
    {
      if this == other {
        return;
      }
      AbandonCurrentState();
      registry, path, tokenId, phase := other.registry, other.path, other.tokenId, other.phase;
      other.registry, other.path, other.tokenId, other.phase := null, "", 0, Invalid;
    }
  }

  class InProcessGdbCoordinator {
    const registry: CoordinatorRegistry

    constructor (r: CoordinatorRegistry)
      ensures registry == r
    {
      registry := r;
    }

    method TryAcquireFastReader(p: Path) returns (lease: FastReaderLease)
      modifies registry
      ensures fresh(lease) && lease.Valid()
      ensures registry.View() == AcquireBlock(old(registry.View()), p).0
      ensures lease.counted <==> AcquireBlock(old(registry.View()), p).1.Some?
      ensures lease.counted ==> lease.registry == registry && lease.path == p
      ensures lease.counted ==>
        Snapshot(lease.generation, lease.pendingEvents) == AcquireBlock(old(registry.View()), p).1.value
    {
      lease := new FastReaderLease.Empty();
      if p == "" {
        return;
      }
      if p !in registry.sources {
        registry.sources := registry.sources[p := FRESH_ENTRY];
      }
      var e := registry.sources[p];
      if e.writerPending || e.writerActive || !e.sourceVerified {
        return;
      }
      registry.sources := registry.sources[p := e.(fastReaderCount := e.fastReaderCount + 1)];
      lease := new FastReaderLease.Granted(registry, p, Snapshot(e.generation, e.pendingEvents));
    }

    /** What prepare_external_update does once its wait is over. */
    method FinishPrepare(p: Path, id: uint64) returns (status: Status, token: ExternalUpdateToken?, activeReaders: nat)
      requires p != ""
      modifies registry
      ensures (registry.View(), status) == FinishBlock(old(registry.View()), p, id)
      ensures activeReaders == Observe(old(registry.View()), p).fastReaderCount
      ensures token != null <==> status == Ok
      ensures token != null ==> fresh(token) && token.registry == registry
      ensures token != null ==> token.path == p && token.tokenId == id && token.phase == Pending
    {
      token := null;
      if p !in registry.sources {
        registry.sources := registry.sources[p := FRESH_ENTRY];
      }
      var e := registry.sources[p];
      activeReaders := e.fastReaderCount;
      var drained := e.writerPending && e.writerTokenId == id && e.fastReaderCount == 0;
      if !drained {
        if e.writerPending && e.writerTokenId == id {
          registry.sources := registry.sources[p := e.(writerPending := false, writerTokenId := 0)];
        }
        status := ReadersActive;
        return;
      }
      token := new ExternalUpdateToken.Prepared(registry, p, id);
      status := Ok;
    }

    method State(p: Path) returns (e: Entry)
      ensures e == Observe(registry.View(), p)
    {
      if p == "" || p !in registry.sources {
        return FRESH_ENTRY;
      }
      e := registry.sources[p];
    }
  }
}
