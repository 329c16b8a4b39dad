/**
 * The feature cursor: a state machine that holds the engine's only cursor lease while it is ready, and
 * walks either a list of candidate FIDs or the table in FID order.
 */
module FeatureCursor {
  import opened Bytes

  // ---- The engine's side of the lease ----------------------------------------------------------------

  datatype Control = Control(openGeneration: uint64, nextGeneration: uint64, active: uint64)

  /** One holder at a time; 0 is "no lease", so the counter skips it when it wraps. */
  function Register(c: Control): (Control, uint64) {
    if c.active != 0 then (c, 0)
    else
      var next := (c.nextGeneration + 1) % TWO_64;
      var next := if next == 0 then 1 else next;
      (c.(nextGeneration := next, active := next), next)
  }

  /** Only the holder can give the lease back. */
  function Unregister(c: Control, generation: uint64): Control {
    if generation != 0 && c.active == generation then c.(active := 0) else c
  }

  // ---- The FIDs a cursor walks -----------------------------------------------------------------------

  datatype Source =
    | Candidates(fids: seq<uint32>, sorted: bool)
    | Sequential(offsets: seq<uint64>, limit: nat)

  predicate HasFeature(offsets: seq<uint64>, fid: nat) {
    fid < |offsets| && offsets[fid] != 0
  }

  datatype Search = Found(at: nat) | AtEnd(at: nat) | OutOfRange(at: nat)

  /** The first active FID from a position on, below the limit. */
  function FindActive(offsets: seq<uint64>, limit: nat, from: nat): Search
    decreases limit - from
  {
    if from >= limit then AtEnd(from)
    else if from >= TWO_32 then OutOfRange(from)
    else if HasFeature(offsets, from) then Found(from)
    else FindActive(offsets, limit, from + 1)
  }

  /** What is still to come from a position on. */
  function Remaining(s: Source, position: nat): seq<uint32>
    decreases if s.Sequential? then s.limit - position else 0
  {
    match s
    case Candidates(fids, _) => if position <= |fids| then fids[position..] else []
    case Sequential(offsets, limit) =>
      if position >= limit || position >= TWO_32 then []
      else if HasFeature(offsets, position) then [position] + Remaining(s, position + 1)
      else Remaining(s, position + 1)
  }

  // ---- The machine -----------------------------------------------------------------------------------

  datatype State = Ready | Exhausted | Failed

  datatype Cursor = Cursor(state: State, generation: uint64, planned: uint64, source: Source, position: nat)

  /** What reading one feature came to. */
  datatype ReadOutcome = ReadFine | ReadFailed | WrongFid | WrongFieldCount

  /** Leaving Ready always gives the lease back; nothing leaves Failed. */
  function Leave(c: Cursor, ctl: Control, to: State): (Cursor, Control) {
    if c.state == Failed then (c, ctl)
    else (c.(state := to, generation := 0), Unregister(ctl, c.generation))
  }

  predicate EngineCurrent(c: Cursor, ctl: Control) {
    ctl.openGeneration == c.planned
  }

  datatype Step = Step(cursor: Cursor, control: Control, delivered: Option<uint32>)

  function Stop(c: Cursor, ctl: Control, to: State): Step {
    Step(Leave(c, ctl, to).0, Leave(c, ctl, to).1, None)
  }

  function NextStep(c: Cursor, ctl: Control, cancelled: bool, read: ReadOutcome): Step {
    if c.state != Ready then Step(c, ctl, None)
    else if !EngineCurrent(c, ctl) || cancelled then Stop(c, ctl, Failed)
    else
      match c.source
      case Candidates(fids, _) =>
        if c.position >= |fids| then Stop(c, ctl, Exhausted)
        else if read == ReadFine then Step(c.(position := c.position + 1), ctl, Some(fids[c.position]))
        else Stop(c.(position := c.position + 1), ctl, Failed)
      case Sequential(offsets, limit) =>
        match FindActive(offsets, limit, c.position)
        case AtEnd(at) => Stop(c.(position := at), ctl, Exhausted)
        case OutOfRange(at) => Stop(c.(position := at + 1), ctl, Failed)
        case Found(at) =>
          if at < TWO_32 && read == ReadFine then Step(c.(position := at + 1), ctl, Some(at))
          else Stop(c.(position := at + 1), ctl, Failed)
  }

  /** The first index whose FID is not below f. */
  function FirstAtLeast(fids: seq<uint32>, f: uint32): (i: nat)
    ensures i <= |fids|
    ensures forall k :: 0 <= k < i ==> fids[k] < f
    ensures i < |fids| ==> fids[i] >= f
  {
    if fids == [] || fids[0] >= f then 0
    else
      assert fids == [fids[0]] + fids[1..];
      1 + FirstAtLeast(fids[1..], f)
  }

  /** A lease is kept, or taken anew; another holder makes the move fail. */
  function Relet(c: Cursor, ctl: Control): (Cursor, Control) {
    if c.generation != 0 then (c, ctl)
    else
      var (taken, generation) := Register(ctl);
      if generation == 0 then Leave(c, ctl, Failed) else (c.(generation := generation), taken)
  }

  function MoveStep(c: Cursor, ctl: Control, f: uint32): (Cursor, Control, bool) {
    if c.state == Failed then (c, ctl, false)
    else if !EngineCurrent(c, ctl) then (Leave(c, ctl, Failed).0, Leave(c, ctl, Failed).1, false)
    else
      var (c, ctl) := Relet(c, ctl);
      if c.state == Failed then (c, ctl, false)
      else
        var (to, at) := MoveTarget(c.source, f);
        var c := if to == Failed then c else c.(position := at);
        if to == Ready then (c.(state := Ready), ctl, true)
        else (Leave(c, ctl, to).0, Leave(c, ctl, to).1, false)
  }

  /** Where a move ends: on an index of the list, or on an active FID of the table. */
  function MoveTarget(s: Source, f: uint32): (State, nat) {
    match s
    case Candidates(fids, _) =>
      var i := FirstAtLeast(fids, f);
      if i == |fids| then (Exhausted, i) else (Ready, i)
    case Sequential(offsets, limit) =>
      match FindActive(offsets, limit, f)
      case Found(at) => (Ready, at)
      case AtEnd(at) => (Exhausted, at)
      case OutOfRange(at) => (Failed, at)
  }

  // ---- What the machine keeps ------------------------------------------------------------------------

  /** Ready means holding the engine's lease; any other state holds nothing. */
  predicate CursorOk(c: Cursor, ctl: Control) {
    && (c.state == Ready <==> c.generation != 0)
    && (c.state == Ready ==> ctl.active == c.generation)
  }

  lemma MachineKept(c: Cursor, ctl: Control, cancelled: bool, read: ReadOutcome, f: uint32)
    requires CursorOk(c, ctl)
    ensures CursorOk(NextStep(c, ctl, cancelled, read).cursor, NextStep(c, ctl, cancelled, read).control)
    ensures CursorOk(MoveStep(c, ctl, f).0, MoveStep(c, ctl, f).1)
    ensures MoveStep(c, ctl, f).2 <==> MoveStep(c, ctl, f).0.state == Ready
    ensures c.state == Failed ==> NextStep(c, ctl, cancelled, read) == Step(c, ctl, None) && MoveStep(c, ctl, f) == (c, ctl, false)
  {
  }

  /** A cursor never takes or frees a lease that another holds. */
  lemma OthersLeaseUntouched(c: Cursor, ctl: Control, cancelled: bool, read: ReadOutcome, f: uint32)
    requires CursorOk(c, ctl) && ctl.active != 0 && ctl.active != c.generation
    ensures NextStep(c, ctl, cancelled, read).control == ctl
    ensures MoveStep(c, ctl, f).1 == ctl && MoveStep(c, ctl, f).0.state == Failed
  {
  }

  lemma {:induction false} FindActiveIsRemaining(s: Source, from: nat)
    requires s.Sequential?
    ensures match FindActive(s.offsets, s.limit, from)
      case Found(at) =>
        from <= at < s.limit && at < TWO_32 && HasFeature(s.offsets, at) && Remaining(s, from) == [at] + Remaining(s, at + 1)
      case AtEnd(at) => at >= s.limit && (s.limit <= TWO_32 || from >= s.limit) && Remaining(s, from) == [] && Remaining(s, at) == []
      case OutOfRange(at) => from < s.limit && at < s.limit && s.limit > TWO_32 && Remaining(s, from) == []
    decreases s.limit - from
  {
    if from >= s.limit || from >= TWO_32 || HasFeature(s.offsets, from) {
    } else {
      FindActiveIsRemaining(s, from + 1);
    }
  }

  predicate InRange(s: Source) {
    s.Sequential? ==> s.limit <= TWO_32
  }

  /** Positions are left that no 32-bit FID names. */
  predicate BeyondFids(s: Source, position: nat) {
    s.Sequential? && s.limit > TWO_32 && position < s.limit
  }

  /**
   * One successful next delivers the first of what remains and leaves the rest.  Where nothing remains the
   * cursor is exhausted, unless positions beyond the 32-bit FIDs are left, which fail it.
   */
  lemma NextTakesFirst(c: Cursor, ctl: Control)
    requires c.state == Ready && EngineCurrent(c, ctl)
    ensures var step := NextStep(c, ctl, false, ReadFine);
      var left := Remaining(c.source, c.position);
      if left == [] then
        && step.delivered.None? && step.cursor.state == (if BeyondFids(c.source, c.position) then Failed else Exhausted)
        && step.control == Unregister(ctl, c.generation)
      else
        && step.delivered == Some(left[0]) && step.control == ctl
        && step.cursor == c.(position := step.cursor.position)
        && Remaining(c.source, step.cursor.position) == left[1..]
  {
    if c.source.Sequential? {
      FindActiveIsRemaining(c.source, c.position);
    }
  }

  /** A FID is delivered only by a ready cursor on its own engine that is not cancelled, and only if it was read. */
  lemma DeliveryIsEarned(c: Cursor, ctl: Control, cancelled: bool, read: ReadOutcome)
    requires NextStep(c, ctl, cancelled, read).delivered.Some?
    ensures c.state == Ready && EngineCurrent(c, ctl) && !cancelled && read == ReadFine
    ensures Remaining(c.source, c.position) != []
    ensures NextStep(c, ctl, cancelled, read).delivered == Some(Remaining(c.source, c.position)[0])
  {
    NextTakesFirst(c, ctl);
  }

  /** Failed for good, with nothing delivered and the lease free. */
  predicate FailedFree(step: Step) {
    step.delivered.None? && step.cursor.state == Failed && step.cursor.generation == 0 && step.control.active == 0
  }

  /**
   * A ready cursor fails exactly if it is cancelled, its engine was reopened, the feature it came to could not
   * be read as it should, or no 32-bit FID is left below its limit; it then delivers nothing and frees its lease.
   */
  lemma NextFailsIff(c: Cursor, ctl: Control, cancelled: bool, read: ReadOutcome)
    requires CursorOk(c, ctl) && c.state == Ready
    ensures var step, left := NextStep(c, ctl, cancelled, read), Remaining(c.source, c.position);
      && (step.cursor.state == Failed <==>
            cancelled || !EngineCurrent(c, ctl) || (if left != [] then read != ReadFine else BeyondFids(c.source, c.position)))
      && (step.cursor.state == Failed ==> FailedFree(step))
      && (step.cursor.state == Exhausted ==> left == [] && step.delivered.None? && step.control.active == 0)
  {
    if c.source.Sequential? {
      FindActiveIsRemaining(c.source, c.position);
    }
  }

  /** What a read that failed passes over is not read again: the cursor stands behind it. */
  lemma FailedReadIsPassed(c: Cursor, ctl: Control, read: ReadOutcome)
    requires CursorOk(c, ctl) && c.state == Ready && EngineCurrent(c, ctl) && read != ReadFine
    requires Remaining(c.source, c.position) != []
    ensures var step := NextStep(c, ctl, false, read);
      Remaining(c.source, step.cursor.position) == Remaining(c.source, c.position)[1..]
  {
    if c.source.Sequential? {
      FindActiveIsRemaining(c.source, c.position);
    }
  }

  /** Everything next delivers until it delivers nothing. */
  function Drain(c: Cursor, ctl: Control, turns: nat): (seq<uint32>, Cursor)
    decreases turns
  {
    if turns == 0 then ([], c)
    else
      var step := NextStep(c, ctl, false, ReadFine);
      if step.delivered.None? then ([], step.cursor)
      else
        var (more, last) := Drain(step.cursor, step.control, turns - 1);
        ([step.delivered.value] + more, last)
  }

  /** A drained cursor has delivered exactly what remained, in order and once each, and is exhausted. */
  lemma {:induction false} DrainDeliversAll(c: Cursor, ctl: Control, turns: nat)
    requires c.state == Ready && EngineCurrent(c, ctl) && InRange(c.source)
    requires turns > |Remaining(c.source, c.position)|
    ensures Drain(c, ctl, turns).0 == Remaining(c.source, c.position)
    ensures Drain(c, ctl, turns).1.state == Exhausted
    decreases turns
  {
    NextTakesFirst(c, ctl);
    var step := NextStep(c, ctl, false, ReadFine);
    if step.delivered.None? {
    } else {
      DrainDeliversAll(step.cursor, ctl, turns - 1);
    }
  }

  /** The active FIDs in ascending order, each once. */
  lemma {:induction false} SequentialIsAllActive(s: Source, from: nat, f: uint32)
    requires s.Sequential? && InRange(s)
    ensures f in Remaining(s, from) <==> from <= f < s.limit && HasFeature(s.offsets, f)
    ensures Remaining(s, from) != [] ==> Remaining(s, from)[0] >= from
    ensures Ascending(Remaining(s, from))
    decreases s.limit - from
  {
    if from >= s.limit {
    } else {
      SequentialIsAllActive(s, from + 1, f);
    }
  }

  predicate Ascending(fids: seq<uint32>) {
    forall i, j :: 0 <= i < j < |fids| ==> fids[i] < fids[j]
  }

  /** In an ascending list, the FIDs from the first that is not below f on are those not below f. */
  lemma {:induction false} SuffixNotBelow(fids: seq<uint32>, f: uint32, i: nat, x: uint32)
    requires Ascending(fids) && i == FirstAtLeast(fids, f)
    ensures x in fids[i..] <==> x in fids && x >= f
  {
    if x in fids && x >= f {
      var k :| 0 <= k < |fids| && fids[k] == x;
      assert fids[i..][k - i] == x;
    }
    if x in fids[i..] {
      var k :| i <= k < |fids| && fids[k] == x;
      assert x in fids;
    }
  }

  lemma {:induction false} SuffixAscends(fids: seq<uint32>, i: nat)
    requires Ascending(fids) && i <= |fids|
    ensures Ascending(fids[i..])
  {
  }

  /**
   * From where a move to f ends, on ascending candidates or in FID order, what remains is every FID of
   * the cursor that is not below f, in ascending order: the next one delivered is the least of them.
   */
  lemma TargetKeepsTheRest(s: Source, f: uint32, x: uint32)
    requires InRange(s) && (s.Candidates? ==> Ascending(s.fids))
    ensures var (to, at) := MoveTarget(s, f);
      && to != Failed
      && (x in Remaining(s, at) <==> x in Remaining(s, 0) && x >= f)
      && Ascending(Remaining(s, at))
      && (to == Ready <==> Remaining(s, at) != [])
  {
    match s
    case Candidates(fids, _) =>
      var i := FirstAtLeast(fids, f);
      SuffixNotBelow(fids, f, i, x);
      SuffixAscends(fids, i);
      assert Remaining(s, 0) == fids && Remaining(s, i) == fids[i..];
    case Sequential(_, _) =>
      FindActiveIsRemaining(s, f);
      SequentialIsAllActive(s, 0, x);
      SequentialIsAllActive(s, f, x);
      assert Remaining(s, MoveTarget(s, f).1) == Remaining(s, f);
  }

  /**
   * A cursor that has not failed, exhausted or not, can be moved as long as the engine is the one it was
   * planned on and no other cursor holds the lease.  It is then ready exactly when something is left.
   */
  lemma MoveFindsTheRest(c: Cursor, ctl: Control, f: uint32, x: uint32)
    requires CursorOk(c, ctl) && c.state != Failed && EngineCurrent(c, ctl) && (c.state == Ready || ctl.active == 0)
    requires InRange(c.source) && (c.source.Candidates? ==> Ascending(c.source.fids))
    ensures var (moved, after, found) := MoveStep(c, ctl, f);
      && moved.source == c.source
      && (x in Remaining(c.source, moved.position) <==> x in Remaining(c.source, 0) && x >= f)
      && Ascending(Remaining(c.source, moved.position))
      && (found <==> Remaining(c.source, moved.position) != [])
      && moved.state == (if found then Ready else Exhausted)
  {
    TargetKeepsTheRest(c.source, f, x);
    MoveLandsOnTarget(c, ctl, f);
  }

  /** A move fails the cursor, and frees what it holds, if the engine was reopened, if another cursor is active, or past the 32-bit FIDs. */
  lemma MoveFailsIff(c: Cursor, ctl: Control, f: uint32)
    requires CursorOk(c, ctl) && c.state != Failed
    ensures var (moved, after, found) := MoveStep(c, ctl, f);
      && (moved.state == Failed <==>
            !EngineCurrent(c, ctl) || (c.state != Ready && ctl.active != 0) || (Remaining(c.source, f) == [] && BeyondFids(c.source, f)))
      && (moved.state == Failed ==> !found && moved.generation == 0 && (c.state == Ready || ctl.active == 0 ==> after.active == 0))
      && (moved.state == Failed && c.state != Ready && ctl.active != 0 ==> after == ctl)
  {
    if c.source.Sequential? {
      FindActiveIsRemaining(c.source, f);
    }
  }

  lemma MoveLandsOnTarget(c: Cursor, ctl: Control, f: uint32)
    requires CursorOk(c, ctl) && c.state != Failed && EngineCurrent(c, ctl) && (c.state == Ready || ctl.active == 0)
    requires MoveTarget(c.source, f).0 != Failed
    ensures var (moved, _, found) := MoveStep(c, ctl, f);
      && moved.source == c.source && moved.position == MoveTarget(c.source, f).1
      && moved.state == MoveTarget(c.source, f).0 && (found <==> moved.state == Ready)
  {
  }

  // ---- Duplicates ------------------------------------------------------------------------------------

  /** Each FID where it first occurs. */
  function KeepFirst(fids: seq<uint32>): seq<uint32> {
    if fids == [] then []
    else
      var last := fids[|fids| - 1];
      var kept := KeepFirst(fids[..|fids| - 1]);
      if last in kept then kept else kept + [last]
  }

  lemma {:induction false} KeepFirstFacts(fids: seq<uint32>, x: uint32)
    ensures x in KeepFirst(fids) <==> x in fids
    ensures forall i, j :: 0 <= i < j < |KeepFirst(fids)| ==> KeepFirst(fids)[i] != KeepFirst(fids)[j]
  {
    if fids == [] {
    } else {
      KeepFirstFacts(fids[..|fids| - 1], x);
      assert fids == fids[..|fids| - 1] + [fids[|fids| - 1]];
    }
  }

  /** What is kept of a beginning stays where it is as the list goes on. */
  lemma {:induction false} KeepFirstOrder(fids: seq<uint32>, n: nat)
    requires n <= |fids|
    ensures KeepFirst(fids[..n]) <= KeepFirst(fids)
  {
    if n < |fids| {
      KeepFirstOrder(fids[..|fids| - 1], n);
      assert fids[..|fids| - 1][..n] == fids[..n];
    } else {
      assert fids[..n] == fids;
    }
  }

  method RemoveDuplicates(fids: seq<uint32>) returns (kept: seq<uint32>)
    ensures kept == KeepFirst(fids)
  {
    kept := [];
    var seen: set<uint32> := {};
    for i := 0 to |fids|
      invariant kept == KeepFirst(fids[..i])
      invariant forall x :: x in seen <==> x in kept
    {
      assert fids[..i + 1][..i] == fids[..i];
      if fids[i] !in seen {
        seen := seen + {fids[i]};
        kept := kept + [fids[i]];
      }
    }
    assert fids[..|fids|] == fids;
  }

  function InsertSorted(x: uint32, l: seq<uint32>): (r: seq<uint32>)
    ensures |r| == |l| + 1
  {
    if l == [] || x <= l[0] then [x] + l else [l[0]] + InsertSorted(x, l[1..])
  }

  /** The library sort, as the one non-descending arrangement it returns. */
  function SortedFids(l: seq<uint32>): (r: seq<uint32>)
    ensures |r| == |l|
  {
    if l == [] then [] else InsertSorted(l[0], SortedFids(l[1..]))
  }

  predicate NonDescending(l: seq<uint32>) {
    forall i, j :: 0 <= i < j < |l| ==> l[i] <= l[j]
  }

  lemma {:induction false} InsertKeepsMembers(x: uint32, l: seq<uint32>)
    ensures multiset(InsertSorted(x, l)) == multiset(l) + multiset{x}
  {
    if l == [] || x <= l[0] {
    } else {
      InsertKeepsMembers(x, l[1..]);
      assert l == [l[0]] + l[1..];
    }
  }

  lemma {:induction false} InsertSortedFacts(x: uint32, l: seq<uint32>)
    requires NonDescending(l)
    ensures NonDescending(InsertSorted(x, l))
  {
    if l == [] || x <= l[0] {
    } else {
      InsertSortedFacts(x, l[1..]);
      var m := InsertSorted(x, l[1..]);
      forall i | 0 <= i < |m|
        ensures l[0] <= m[i]
      {
        InsertKeepsMembers(x, l[1..]);
        assert m[i] in multiset(m);
        assert m[i] == x || m[i] in l[1..];
      }
    }
  }

  lemma {:induction false} SortedFidsFacts(l: seq<uint32>)
    ensures NonDescending(SortedFids(l)) && multiset(SortedFids(l)) == multiset(l)
  {
    if l == [] {
    } else {
      SortedFidsFacts(l[1..]);
      InsertSortedFacts(l[0], SortedFids(l[1..]));
      InsertKeepsMembers(l[0], SortedFids(l[1..]));
      assert l == [l[0]] + l[1..];
    }
  }

  /** The library's unique, over the first n: a value equal to its neighbour is dropped. */
  function DropRepeats(l: seq<uint32>, n: nat): seq<uint32>
    requires n <= |l|
  {
    if n == 0 then []
    else
      var kept := DropRepeats(l, n - 1);
      if n > 1 && l[n - 1] == l[n - 2] then kept else kept + [l[n - 1]]
  }

  /** Ascending, with the first n of a list and the last of them. */
  ghost predicate KeptUpTo(kept: seq<uint32>, l: seq<uint32>, n: nat)
    requires n <= |l|
  {
    && Ascending(kept) && (forall x :: x in kept <==> exists k :: 0 <= k < n && l[k] == x)
    && if n == 0 then kept == [] else kept != [] && kept[|kept| - 1] == l[n - 1]
  }

  lemma {:induction false} KeepLarger(kept: seq<uint32>, l: seq<uint32>, n: nat)
    requires n < |l| && KeptUpTo(kept, l, n) && (n > 0 ==> l[n - 1] < l[n])
    ensures KeptUpTo(kept + [l[n]], l, n + 1)
  {
  }

  lemma {:induction false} DropRepeatsFacts(l: seq<uint32>, n: nat)
    requires NonDescending(l) && n <= |l|
    ensures KeptUpTo(DropRepeats(l, n), l, n)
  {
    if n == 0 {
    } else {
      DropRepeatsFacts(l, n - 1);
      if n == 1 || l[n - 1] != l[n - 2] {
        KeepLarger(DropRepeats(l, n - 1), l, n - 1);
      }
    }
  }

  function SortedUnique(fids: seq<uint32>): seq<uint32> {
    DropRepeats(SortedFids(fids), |fids|)
  }

  /** The same FIDs, ascending and each once. */
  lemma {:induction false} SortedUniqueFacts(fids: seq<uint32>, x: uint32)
    ensures Ascending(SortedUnique(fids)) && (x in SortedUnique(fids) <==> x in fids)
  {
    SortedFidsFacts(fids);
    DropRepeatsFacts(SortedFids(fids), |fids|);
    assert x in SortedFids(fids) <==> x in multiset(SortedFids(fids));
    assert x in fids <==> x in multiset(fids);
  }

  method SortUnique(fids: seq<uint32>) returns (kept: seq<uint32>)
    ensures kept == SortedUnique(fids)
  {
    var sorted := SortedFids(fids);
    SortedFidsFacts(fids);
    kept := [];
    for i := 0 to |sorted|
      invariant kept == DropRepeats(sorted, i)
      invariant kept != [] ==> i > 0 && kept[|kept| - 1] == sorted[i - 1]
      invariant kept == [] ==> i == 0
    {
      if kept == [] || kept[|kept| - 1] != sorted[i] {
        kept := kept + [sorted[i]];
      }
    }
  }

  // ---- Opening ---------------------------------------------------------------------------------------

  /** The FIDs a query matched, as a cursor walks them. */
  function WalkList(matched: seq<uint32>, sort: bool): seq<uint32> {
    if sort then SortedUnique(matched) else KeepFirst(matched)
  }

  /** What is asked for: on no open table, of a query that ended in an error, of all rows, or of those a query found. */
  datatype Request = NotOpen | FailedQuery | WholeTable(offsets: seq<uint64>) | Matched(fids: seq<uint32>, sort: bool)

  predicate Answerable(r: Request) {
    r.WholeTable? || r.Matched?
  }

  function SourceOf(r: Request): Source {
    match r
    case NotOpen | FailedQuery => Candidates([], true)
    case WholeTable(offsets) => Sequential(offsets, if exists i :: 0 <= i < |offsets| && offsets[i] != 0 then |offsets| else 0)
    case Matched(fids, sort) => Candidates(WalkList(fids, sort), sort)
  }

  predicate NothingToWalk(s: Source) {
    if s.Candidates? then s.fids == [] else s.limit == 0
  }

  /** Refused for an error or while another cursor is active, exhausted at once over nothing, else ready. */
  function Opened(r: Request, ctl: Control): (Cursor, Control) {
    if !Answerable(r) || ctl.active != 0 then (Cursor(Failed, 0, ctl.openGeneration, Candidates([], true), 0), ctl)
    else if NothingToWalk(SourceOf(r)) then (Cursor(Exhausted, 0, ctl.openGeneration, SourceOf(r), 0), ctl)
    else
      var (taken, generation) := Register(ctl);
      (Cursor(Ready, generation, ctl.openGeneration, SourceOf(r), 0), taken)
  }

  /** A request that cannot be answered, or comes while another cursor is active, opens nothing and disturbs nobody. */
  lemma RefusedOpen(r: Request, ctl: Control, cancelled: bool, read: ReadOutcome, f: uint32)
    requires r.NotOpen? || r.FailedQuery? || ctl.active != 0
    ensures var (c, after) := Opened(r, ctl);
      && after == ctl && CursorOk(c, ctl) && c.state == Failed
      && NextStep(c, ctl, cancelled, read) == Step(c, ctl, None) && MoveStep(c, ctl, f) == (c, ctl, false)
  {
  }

  /** A lease is freed by its own number and by no other. */
  lemma LeaseIsFreed(ctl: Control, generation: uint64)
    ensures Unregister(ctl, generation) == if generation == ctl.active then ctl.(active := 0) else ctl
  {
  }

  /** A lease that is given has a number of its own: not 0, and the one after the last, across the wrap. */
  lemma LeaseIsNew(ctl: Control)
    ensures var (after, generation) := Register(ctl);
      && (generation != 0 <==> ctl.active == 0)
      && (generation == 0 ==> after == ctl)
      && (generation != 0 ==>
            && after == ctl.(active := generation, nextGeneration := generation)
            && (if ctl.nextGeneration == TWO_64 - 1 then generation == 1 else generation == ctl.nextGeneration + 1))
  {
  }

  lemma {:induction false} WalksNothing(fids: seq<uint32>, sort: bool)
    ensures WalkList(fids, sort) == [] <==> fids == []
  {
    if fids != [] {
      SortedUniqueFacts(fids, fids[0]);
      KeepFirstFacts(fids, fids[0]);
    }
  }

  /**
   * A cursor is ready, with the lease, exactly if there is something to walk: a row in the table, or a FID the
   * query found.  Over nothing it is exhausted at once, and the engine as free as before.
   */
  lemma OpenedReady(r: Request, ctl: Control)
    requires (r.WholeTable? || r.Matched?) && ctl.active == 0
    ensures var (c, after) := Opened(r, ctl);
      var something := if r.WholeTable? then exists i :: 0 <= i < |r.offsets| && r.offsets[i] != 0 else r.fids != [];
      && c.planned == ctl.openGeneration && EngineCurrent(c, after)
      && (if something then c.state == Ready && after.active == c.generation != 0
          else c.state == Exhausted && c.generation == 0 && after == ctl)
  {
    if r.Matched? {
      WalksNothing(r.fids, r.sort);
    }
  }

  /** Opened and read to its end, a cursor has delivered everything asked for, once each, in order. */
  lemma {:induction false} OpenThenDrain(r: Request, ctl: Control, turns: nat)
    requires (r.WholeTable? || r.Matched?) && ctl.active == 0 && InRange(SourceOf(r)) && turns > |Remaining(SourceOf(r), 0)|
    ensures CursorOk(Opened(r, ctl).0, Opened(r, ctl).1)
    ensures var (delivered, last) := Drain(Opened(r, ctl).0, Opened(r, ctl).1, turns);
      delivered == Remaining(SourceOf(r), 0) && last.state == Exhausted
    ensures r.Matched? ==> Remaining(SourceOf(r), 0) == WalkList(r.fids, r.sort)
  {
    var (c, after) := Opened(r, ctl);
    if c.state == Ready {
      DrainDeliversAll(c, after, turns);
    }
  }

  /** And nothing but the active FIDs of the whole table. */
  lemma {:induction false} WholeTableIsActive(offsets: seq<uint64>, f: uint32)
    requires |offsets| <= TWO_32
    ensures f in Remaining(SourceOf(WholeTable(offsets)), 0) <==> HasFeature(offsets, f)
    ensures Ascending(Remaining(SourceOf(WholeTable(offsets)), 0))
  {
    var s := SourceOf(WholeTable(offsets));
    SequentialIsAllActive(s, 0, f);
    if HasFeature(offsets, f) {
      assert offsets[f] != 0;
    }
  }

  // ---- The classes -----------------------------------------------------------------------------------

  class CursorControl {
    var openGeneration: uint64
    var nextCursorGeneration: uint64
    var activeCursorGeneration: uint64

    constructor ()
      ensures View() == Control(0, 0, 0)
    {
      openGeneration, nextCursorGeneration, activeCursorGeneration := 0, 0, 0;
    }

    function View(): Control
      reads this
    {
      Control(openGeneration, nextCursorGeneration, activeCursorGeneration)
    }

    method RegisterFeatureCursor() returns (generation: uint64)
      modifies this
      ensures (View(), generation) == Register(old(View()))
    {
      if activeCursorGeneration != 0 {
        return 0;
      }
      nextCursorGeneration := (nextCursorGeneration + 1) % TWO_64;
      if nextCursorGeneration == 0 {
        nextCursorGeneration := nextCursorGeneration + 1;
      }
      activeCursorGeneration := nextCursorGeneration;
      generation := activeCursorGeneration;
    }

    method ReleaseFeatureCursor(generation: uint64)
      modifies this
      ensures View() == Unregister(old(View()), generation)
    {
      if generation != 0 && activeCursorGeneration == generation {
        activeCursorGeneration := 0;
      }
    }
  }

  lemma {:induction false} FirstAtLeastIs(fids: seq<uint32>, f: uint32, i: nat)
    requires i <= |fids|
    requires forall k :: 0 <= k < i ==> fids[k] < f
    requires i < |fids| ==> fids[i] >= f
    ensures i == FirstAtLeast(fids, f)
  {
  }

  /** The library's binary search on the sorted list. */
  method LowerBound(fids: seq<uint32>, f: uint32) returns (at: nat)
    requires Ascending(fids)
    ensures at == FirstAtLeast(fids, f)
  {
    at := 0;
    var high := |fids|;
    while at < high
      invariant at <= high <= |fids|
      invariant forall k :: 0 <= k < at ==> fids[k] < f
      invariant high < |fids| ==> fids[high] >= f
    {
      var middle := at + (high - at) / 2;
      if fids[middle] < f {
        forall k | 0 <= k <= middle
          ensures fids[k] < f
        {
          assert k < middle ==> fids[k] < fids[middle];
        }
        at := middle + 1;
      } else {
        high := middle;
      }
    }
    FirstAtLeastIs(fids, f, at);
  }

  /** The walk used when the list is in another order. */
  method FirstNotBelow(fids: seq<uint32>, f: uint32) returns (at: nat)
    ensures at == FirstAtLeast(fids, f)
  {
    at := 0;
    while at < |fids| && fids[at] < f
      invariant at <= |fids|
      invariant forall k :: 0 <= k < at ==> fids[k] < f
    {
      at := at + 1;
    }
    FirstAtLeastIs(fids, f, at);
  }

  class FeatureCursorImpl {
    const control: CursorControl
    const planned: uint64
    const source: Source
    var state: State
    var generation: uint64
    var fidIndex: nat
    var nextSequentialFid: nat

    function View(): Cursor
      reads this
    {
      Cursor(state, generation, planned, source, if source.Candidates? then fidIndex else nextSequentialFid)
    }

    predicate Valid()
      reads this
    {
      source.Candidates? && source.sorted ==> Ascending(source.fids)
    }

    /** A cursor that never opened. */
    constructor Unopened(control: CursorControl)
      ensures Valid() && this.control == control
      ensures View() == Cursor(Failed, 0, control.openGeneration, Candidates([], true), 0)
    {
      this.control, planned, source := control, control.openGeneration, Candidates([], true);
      state, generation, fidIndex, nextSequentialFid := Failed, 0, 0, 0;
    }

    /** An empty list or table is exhausted at once and gives its lease back. */
    constructor Open(control: CursorControl, planned: uint64, generation: uint64, source: Source)
      requires source.Candidates? && source.sorted ==> Ascending(source.fids)
      modifies control
      ensures Valid() && this.control == control && this.source == source
      ensures var empty := if source.Candidates? then source.fids == [] else source.limit == 0;
        var start := Cursor(Ready, generation, planned, source, 0);
        (View(), control.View()) == if empty then Leave(start, old(control.View()), Exhausted) else (start, old(control.View()))
    {
      this.control, this.planned, this.source := control, planned, source;
      state, this.generation, fidIndex, nextSequentialFid := Ready, generation, 0, 0;
      new;
      if (if source.Candidates? then source.fids == [] else source.limit == 0) {
        state := Exhausted;
        ReleaseLease();
      }
    }

    method ReleaseLease()
      modifies this`generation, control
      ensures generation == 0
      ensures control.View() == Unregister(old(control.View()), old(generation))
    {
      if generation == 0 {
        return;
      }
      var held := generation;
      generation := 0;
      control.ReleaseFeatureCursor(held);
    }

    method Exhaust()
      modifies this`state, this`generation, control
      ensures (View(), control.View()) == Leave(old(View()), old(control.View()), Exhausted)
    {
      if state == Failed {
        return;
      }
      state := Exhausted;
      ReleaseLease();
    }

    method Fail()
      modifies this`state, this`generation, control
      ensures (View(), control.View()) == Leave(old(View()), old(control.View()), Failed)
    {
      if state == Failed {
        return;
      }
      state := Failed;
      ReleaseLease();
    }

    method EngineIsCurrent() returns (current: bool)
      modifies this`state, this`generation, control
      ensures current <==> EngineCurrent(old(View()), old(control.View()))
      ensures (View(), control.View()) == if current then (old(View()), old(control.View())) else Leave(old(View()), old(control.View()), Failed)
    {
      current := control.openGeneration == planned;
      if !current {
        Fail();
      }
    }

    method EnsureLease() returns (leased: bool)
      requires state != Failed
      requires EngineCurrent(View(), control.View())
      modifies this`state, this`generation, control
      ensures (View(), control.View()) == Relet(old(View()), old(control.View()))
      ensures leased <==> state != Failed
    {
      var current := EngineIsCurrent();
      if !current {
        return false;
      }
      if generation != 0 {
        return true;
      }
      generation := control.RegisterFeatureCursor();
      leased := generation != 0;
      if !leased {
        Fail();
      }
    }

    /** The next FID to read, or the end of the list or table, or a failure beyond the 32-bit FIDs. */
    method NextFid() returns (fid: Option<uint32>)
      requires state == Ready
      modifies this, control
      ensures var c, ctl := old(View()), old(control.View());
        match source
        case Candidates(fids, _) =>
          control.View() == ctl && (
            if c.position >= |fids| then fid == None && View() == c
            else fid == Some(fids[c.position]) && View() == c.(position := c.position + 1))
        case Sequential(offsets, limit) =>
          match FindActive(offsets, limit, c.position)
          case AtEnd(at) => fid == None && View() == c.(position := at) && control.View() == ctl
          case OutOfRange(at) => fid == None && (View(), control.View()) == Leave(c.(position := at + 1), ctl, Failed)
          case Found(at) => at < TWO_32 && fid == Some(at) && View() == c.(position := at + 1) && control.View() == ctl
    {
      match source
      case Candidates(fids, _) =>
        if fidIndex >= |fids| {
          return None;
        }
        fid := Some(fids[fidIndex]);
        fidIndex := fidIndex + 1;
      case Sequential(offsets, limit) =>
        fid := NextActive(offsets, limit);
    }

    method NextActive(offsets: seq<uint64>, limit: nat) returns (fid: Option<uint32>)
      requires state == Ready && source == Sequential(offsets, limit)
      modifies this, control
      ensures var c, ctl := old(View()), old(control.View());
        match FindActive(offsets, limit, c.position)
        case AtEnd(at) => fid == None && View() == c.(position := at) && control.View() == ctl
        case OutOfRange(at) => fid == None && (View(), control.View()) == Leave(c.(position := at + 1), ctl, Failed)
        case Found(at) => at < TWO_32 && fid == Some(at) && View() == c.(position := at + 1) && control.View() == ctl
    {
      while nextSequentialFid < limit
        invariant FindActive(offsets, limit, nextSequentialFid) == FindActive(offsets, limit, old(nextSequentialFid))
        invariant View() == old(View()).(position := nextSequentialFid) && control.View() == old(control.View())
      {
        var candidate := nextSequentialFid;
        nextSequentialFid := nextSequentialFid + 1;
        if candidate >= TWO_32 {
          Fail();
          return None;
        }
        if HasFeature(offsets, candidate) {
          return Some(candidate);
        }
      }
      fid := None;
    }

    /** `read` is what reading the chosen feature comes to. */
    method Next(cancelled: bool, read: ReadOutcome) returns (delivered: Option<uint32>)
      modifies this, control
      ensures Step(View(), control.View(), delivered) == NextStep(old(View()), old(control.View()), cancelled, read)
    {
      delivered := None;
      if state != Ready {
        return;
      }
      var current := EngineIsCurrent();
      if !current {
        return;
      }
      if cancelled {
        Fail();
        return;
      }
      var fid := NextFid();
      if fid.None? {
        if state == Ready {
          Exhaust();
        }
        return;
      }
      if read != ReadFine {
        Fail();
        return;
      }
      delivered := fid;
    }

    /** The place a move ends at, written to the field of the cursor's mode. */
    method Seek(f: uint32) returns (to: State)
      requires Valid() && state != Failed
      modifies this`fidIndex, this`nextSequentialFid
      ensures to == MoveTarget(source, f).0
      ensures View() == if to == Failed then old(View()) else old(View()).(position := MoveTarget(source, f).1)
    {
      match source
      case Candidates(fids, sorted) =>
        if sorted {
          fidIndex := LowerBound(fids, f);
        } else {
          fidIndex := FirstNotBelow(fids, f);
        }
        to := if fidIndex == |fids| then Exhausted else Ready;
      case Sequential(offsets, limit) =>
        var candidate: nat := f;
        while candidate < limit
          invariant FindActive(offsets, limit, candidate) == FindActive(offsets, limit, f)
        {
          if candidate >= TWO_32 {
            return Failed;
          }
          if HasFeature(offsets, candidate) {
            break;
          }
          candidate := candidate + 1;
        }
        nextSequentialFid := candidate;
        to := if candidate >= limit then Exhausted else Ready;
    }

    method MoveTo(f: uint32) returns (found: bool)
      requires Valid()
      modifies this, control
      ensures Valid()
      ensures (View(), control.View(), found) == MoveStep(old(View()), old(control.View()), f)
    {
      if state == Failed {
        return false;
      }
      var current := EngineIsCurrent();
      if !current {
        return false;
      }
      var leased := EnsureLease();
      if !leased {
        return false;
      }
      var to := Seek(f);
      if to == Exhausted {
        Exhaust();
        return false;
      }
      if to == Failed {
        Fail();
        return false;
      }
      state := Ready;
      found := true;
    }
  }

  method OpenCursor(control: CursorControl, r: Request) returns (cursor: FeatureCursorImpl)
    modifies control
    ensures fresh(cursor) && cursor.Valid() && cursor.control == control
    ensures (cursor.View(), control.View()) == Opened(r, old(control.View()))
  {
    if r.NotOpen? || control.activeCursorGeneration != 0 {
      cursor := new FeatureCursorImpl.Unopened(control);
      return;
    }
    if r.FailedQuery? {
      cursor := new FeatureCursorImpl.Unopened(control);
      return;
    }
    var source;
    match r {
      case WholeTable(offsets) =>
        var active := exists i :: 0 <= i < |offsets| && offsets[i] != 0;
        source := Sequential(offsets, if active then |offsets| else 0);
      case Matched(fids, sort) =>
        var list;
        if sort {
          list := SortUnique(fids);
          SortedUniqueFacts(fids, 0);
        } else {
          list := RemoveDuplicates(fids);
        }
        source := Candidates(list, sort);
    }
    var planned := control.openGeneration;
    if NothingToWalk(source) {
      cursor := new FeatureCursorImpl.Open(control, planned, 0, source);
      return;
    }
    var generation := control.RegisterFeatureCursor();
    if generation == 0 {
      cursor := new FeatureCursorImpl.Unopened(control);
      return;
    }
    cursor := new FeatureCursorImpl.Open(control, planned, generation, source);
  }
}
