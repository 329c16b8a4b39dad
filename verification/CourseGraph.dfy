/**
 * The prerequisite graph of the course: the check that refuses cycles, and the mutual recursion of
 * module_status and _is_unlocked that relies on it.
 */
module CourseGraph {

  type ModuleId = string

  /** The prerequisites of every module. */
  type Graph = map<ModuleId, seq<ModuleId>>

  /** Every prerequisite is a module: what the check before this one has established. */
  predicate Known(g: Graph) {
    forall m <- g :: forall p <- g[m] :: p in g
  }

  predicate Requires(g: Graph, m: ModuleId, p: ModuleId) {
    m in g && p in g[m]
  }

  /** A walk from module to prerequisite. */
  ghost predicate Walk(g: Graph, path: seq<ModuleId>) {
    path != [] && forall i :: 0 <= i < |path| - 1 ==> Requires(g, path[i], path[i + 1])
  }

  ghost predicate Cycle(g: Graph, path: seq<ModuleId>) {
    Walk(g, path) && |path| >= 2 && path[0] == path[|path| - 1]
  }

  /** Every module after its prerequisites, none twice. */
  ghost predicate Ordered(g: Graph, order: seq<ModuleId>) {
    && (forall i, j :: 0 <= i < j < |order| ==> order[i] != order[j])
    && (forall i :: 0 <= i < |order| ==> order[i] in g && forall p <- g[order[i]] :: p in order[..i])
  }

  function Position(order: seq<ModuleId>, m: ModuleId): (i: nat)
    requires m in order
    ensures i < |order| && order[i] == m && m !in order[..i]
  {
    if order[0] == m then 0
    else
      assert order == [order[0]] + order[1..];
      1 + Position(order[1..], m)
  }

  lemma PositionIsFirst(order: seq<ModuleId>, m: ModuleId, k: nat)
    requires k < |order| && order[k] == m
    ensures Position(order, m) <= k
  {
  }

  lemma PositionDrops(g: Graph, order: seq<ModuleId>, m: ModuleId, p: ModuleId)
    requires Ordered(g, order) && m in order && Requires(g, m, p)
    ensures p in order && Position(order, p) < Position(order, m)
  {
    var i := Position(order, m);
    assert p in order[..i];
    var k :| 0 <= k < i && order[..i][k] == p;
    assert order[k] == p;
    PositionIsFirst(order, p, k);
  }

  /** Along a walk positions only fall. */
  lemma {:induction false} WalkDescends(g: Graph, order: seq<ModuleId>, path: seq<ModuleId>)
    requires Ordered(g, order) && Walk(g, path) && path[0] in order
    ensures path[|path| - 1] in order
    ensures |path| >= 2 ==> Position(order, path[|path| - 1]) < Position(order, path[0])
    decreases |path|
  {
    if |path| < 2 {
    } else {
      assert Requires(g, path[0], path[1]);
      PositionDrops(g, order, path[0], path[1]);
      forall i | 0 <= i < |path[1..]| - 1
        ensures Requires(g, path[1..][i], path[1..][i + 1])
      {
        assert Requires(g, path[i + 1], path[i + 1 + 1]);
      }
      WalkDescends(g, order, path[1..]);
    }
  }

  /** A graph all of whose modules can be put in order has no cycle. */
  lemma OrderedIsAcyclic(g: Graph, order: seq<ModuleId>)
    requires Ordered(g, order) && forall m <- g :: m in order
    ensures forall path :: !Cycle(g, path)
  {
    forall path | Cycle(g, path)
      ensures false
    {
      assert Requires(g, path[0], path[1]);
      WalkDescends(g, order, path);
    }
  }

  // ---- The check -------------------------------------------------------------------------------------

  datatype Outcome = Accepted | CycleAt(m: ModuleId)

  /** The closure's two sets; the ghosts record how the modules came to be in them. */
  class AcyclicCheck {
    const g: Graph
    var visiting: set<ModuleId>
    var visited: set<ModuleId>
    ghost var stack: seq<ModuleId>     // visiting, outermost first
    ghost var finished: seq<ModuleId>  // visited, in the order of finishing

    ghost predicate Valid()
      reads this
    {
      && Known(g)
      && Ordered(g, finished)
      && (forall m :: m in visited <==> m in finished)
      && (forall m :: m in visiting <==> m in stack)
      && (forall m <- stack :: m in g && m !in finished)
      && (forall i, j :: 0 <= i < j < |stack| ==> stack[i] != stack[j])
      && (stack != [] ==> Walk(g, stack))
    }

    constructor (g: Graph)
      requires Known(g)
      ensures Valid() && this.g == g && stack == [] && finished == []
    {
      this.g := g;
      visiting, visited, stack, finished := {}, {}, [], [];
    }

    /** Visits a module that the module on top of the stack requires. */
    method Visit(m: ModuleId) returns (outcome: Outcome, ghost cycle: seq<ModuleId>)
      requires Valid() && m in g && (stack != [] ==> Requires(g, stack[|stack| - 1], m))
      modifies this
      ensures outcome.CycleAt? ==> Cycle(g, cycle) && cycle[0] == outcome.m
      ensures outcome.Accepted? ==> Valid() && stack == old(stack) && old(finished) <= finished && m in finished
      decreases g.Keys - visiting, 1, 0
    {
      cycle := [];
      if m in visiting {
        ghost var i :| 0 <= i < |stack| && stack[i] == m;
        cycle := stack[i..] + [m];
        StackCloses(g, stack, i, m);
        return CycleAt(m), cycle;
      }
      if m in visited {
        return Accepted, [];
      }
      visiting := visiting + {m};
      stack := stack + [m];
      assert Walk(g, stack) by {
        forall i | 0 <= i < |stack| - 1
          ensures Requires(g, stack[i], stack[i + 1])
        {
          assert i < |stack| - 2 ==> Requires(g, old(stack)[i], old(stack)[i + 1]);
        }
      }
      outcome, cycle := VisitAll(m);
      if outcome.CycleAt? {
        return;
      }
      visiting := visiting - {m};
      visited := visited + {m};
      OrderedAppend(g, finished, m);
      finished := finished + [m];
      assert stack == old(stack) + [m];
      stack := stack[..|stack| - 1];
      assert stack == old(stack);
    }

    /** The loop over one module's prerequisites. */
    method VisitAll(m: ModuleId) returns (outcome: Outcome, ghost cycle: seq<ModuleId>)
      requires Valid() && stack != [] && stack[|stack| - 1] == m
      modifies this
      ensures outcome.CycleAt? ==> Cycle(g, cycle) && cycle[0] == outcome.m
      ensures outcome.Accepted? ==> Valid() && stack == old(stack) && old(finished) <= finished
      ensures outcome.Accepted? ==> forall p <- g[m] :: p in finished
      decreases g.Keys - visiting, 2, 0
    {
      cycle := [];
      for i := 0 to |g[m]|
        invariant Valid() && stack == old(stack) && old(finished) <= finished && visiting == old(visiting)
        invariant forall k :: 0 <= k < i ==> g[m][k] in finished
      {
        outcome, cycle := Visit(g[m][i]);
        if outcome.CycleAt? {
          return;
        }
      }
      outcome := Accepted;
    }
  }

  lemma StackCloses(g: Graph, stack: seq<ModuleId>, i: nat, m: ModuleId)
    requires Walk(g, stack) && i < |stack| && stack[i] == m && Requires(g, stack[|stack| - 1], m)
    ensures Cycle(g, stack[i..] + [m])
  {
    var path := stack[i..] + [m];
    forall k | 0 <= k < |path| - 1
      ensures Requires(g, path[k], path[k + 1])
    {
      assert k < |path| - 2 ==> Requires(g, stack[i + k], stack[i + k + 1]);
    }
  }

  lemma OrderedAppend(g: Graph, order: seq<ModuleId>, m: ModuleId)
    requires Ordered(g, order) && m in g && m !in order && forall p <- g[m] :: p in order
    ensures Ordered(g, order + [m])
  {
    var more := order + [m];
    forall i | 0 <= i < |more|
      ensures more[i] in g && forall p <- g[more[i]] :: p in more[..i]
    {
      assert more[..i] == order[..i];
      assert order[..|order|] == order;
    }
  }

  datatype Verdict = Valid | UnknownPrerequisite(m: ModuleId) | Cyclic(m: ModuleId)

  method ValidatePrerequisites(g: Graph, ids: seq<ModuleId>) returns (bad: seq<ModuleId>)
    requires forall m :: m in ids <==> m in g
    ensures bad == [] <==> Known(g)
    ensures bad != [] ==> |bad| == 1 && bad[0] in g && exists p <- g[bad[0]] :: p !in g
  {
    for i := 0 to |ids|
      invariant forall k :: 0 <= k < i ==> forall p <- g[ids[k]] :: p in g
    {
      if exists p <- g[ids[i]] :: p !in g {
        return [ids[i]];
      }
    }
    bad := [];
  }

  /** Accepts exactly the graphs whose prerequisites are all known and that have no cycle, and names where not. */
  method Validate(g: Graph, ids: seq<ModuleId>) returns (verdict: Verdict)
    requires forall m :: m in ids <==> m in g
    ensures verdict.UnknownPrerequisite? <==> !Known(g)
    ensures verdict.UnknownPrerequisite? ==> verdict.m in g && exists p <- g[verdict.m] :: p !in g
    ensures verdict.Cyclic? <==> Known(g) && exists path :: Cycle(g, path)
    ensures verdict.Cyclic? ==> exists path :: Cycle(g, path) && path[0] == verdict.m
  {
    var bad := ValidatePrerequisites(g, ids);
    if bad != [] {
      return UnknownPrerequisite(bad[0]);
    }
    var check := new AcyclicCheck(g);
    for i := 0 to |ids|
      invariant fresh(check) && check.Valid() && check.g == g && check.stack == []
      invariant forall k :: 0 <= k < i ==> ids[k] in check.finished
    {
      var outcome, cycle := check.Visit(ids[i]);
      if outcome.CycleAt? {
        assert Cycle(g, cycle);
        return Cyclic(outcome.m);
      }
    }
    OrderedIsAcyclic(g, check.finished);
    verdict := Valid;
  }

  /** A graph without cycles can be put in order, so everything that needs an order exists for it. */
  method OrderOf(g: Graph, ids: seq<ModuleId>) returns (ghost order: seq<ModuleId>)
    requires (forall m :: m in ids <==> m in g) && Known(g) && forall path :: !Cycle(g, path)
    ensures Ordered(g, order) && forall m <- g :: m in order
  {
    var check := new AcyclicCheck(g);
    for i := 0 to |ids|
      invariant fresh(check) && check.Valid() && check.g == g && check.stack == []
      invariant forall k :: 0 <= k < i ==> ids[k] in check.finished
    {
      var outcome, cycle := check.Visit(ids[i]);
      assert outcome.Accepted?;
    }
    order := check.finished;
  }

  // ---- The recursion it justifies ---------------------------------------------------------------------

  datatype State = Planned | Locked | NotStarted | Learning | Provisional | Mastered

  /** What is stored of a module: its state, and whether every gate still holds. */
  datatype Progress = NoProgress | Progress(state: State, gatesHold: bool)

  datatype Course = Course(g: Graph, delivered: set<ModuleId>, progress: map<ModuleId, Progress>)

  predicate Passed(s: State) {
    s == Provisional || s == Mastered
  }

  function Recorded(c: Course, m: ModuleId): State {
    if m !in c.progress || c.progress[m].NoProgress? then NotStarted
    else if Passed(c.progress[m].state) && !c.progress[m].gatesHold then Learning
    else c.progress[m].state
  }

  /** An order of the modules is what makes the two functions below end; they do not look at it. */
  function ModuleStatus(c: Course, ghost order: seq<ModuleId>, m: ModuleId): State
    requires Ordered(c.g, order) && m in order
    decreases Position(order, m), 1, 0
  {
    if m !in c.delivered then Planned
    else if !IsUnlocked(c, order, m, 0) then Locked
    else Recorded(c, m)
  }

  /** Are the prerequisites from the i-th on passed? */
  predicate IsUnlocked(c: Course, ghost order: seq<ModuleId>, m: ModuleId, i: nat)
    requires Ordered(c.g, order) && m in order && i <= |c.g[m]|
    decreases Position(order, m), 0, |c.g[m]| - i
  {
    i == |c.g[m]| ||
    (assert Requires(c.g, m, c.g[m][i]);
     PositionDrops(c.g, order, m, c.g[m][i]);
     Passed(ModuleStatus(c, order, c.g[m][i])) && IsUnlocked(c, order, m, i + 1))
  }

  lemma UnlockedAt(c: Course, order: seq<ModuleId>, m: ModuleId, i: nat, k: nat)
    requires Ordered(c.g, order) && m in order && i <= k < |c.g[m]| && IsUnlocked(c, order, m, i)
    ensures c.g[m][k] in order && Passed(ModuleStatus(c, order, c.g[m][k]))
    decreases k - i
  {
    assert Requires(c.g, m, c.g[m][k]);
    PositionDrops(c.g, order, m, c.g[m][k]);
    if i == k {
    } else {
      UnlockedAt(c, order, m, i + 1, k);
    }
  }

  ghost predicate PassedAt(c: Course, order: seq<ModuleId>, p: ModuleId)
    requires Ordered(c.g, order)
  {
    p in order && Passed(ModuleStatus(c, order, p))
  }

  lemma {:induction false} UnlockedIff(c: Course, order: seq<ModuleId>, m: ModuleId, i: nat)
    requires Ordered(c.g, order) && m in order && i <= |c.g[m]|
    ensures IsUnlocked(c, order, m, i) <==> forall k :: i <= k < |c.g[m]| ==> PassedAt(c, order, c.g[m][k])
    decreases |c.g[m]| - i
  {
    if i == |c.g[m]| {
    } else {
      assert Requires(c.g, m, c.g[m][i]);
      PositionDrops(c.g, order, m, c.g[m][i]);
      UnlockedIff(c, order, m, i + 1);
    }
  }

  /** What is shown of a delivered module whose prerequisites are all passed: what is stored, or what a gate that fails makes of it. */
  lemma {:induction false} StoredStateShows(c: Course, order: seq<ModuleId>, m: ModuleId)
    requires Ordered(c.g, order) && m in order && m in c.delivered
    requires forall k :: 0 <= k < |c.g[m]| ==> PassedAt(c, order, c.g[m][k])
    ensures m !in c.progress ==> ModuleStatus(c, order, m) == NotStarted
    ensures m in c.progress ==>
      match c.progress[m]
      case NoProgress => ModuleStatus(c, order, m) == NotStarted
      case Progress(state, gatesHold) =>
        ModuleStatus(c, order, m) == if state in {Provisional, Mastered} && !gatesHold then Learning else state
  {
    UnlockedIff(c, order, m, 0);
  }

  /**
   * A module is passed exactly when it is delivered, all its prerequisites are passed, and what is stored of
   * it is that it is provisionally passed or mastered and every gate holds.
   */
  lemma {:induction false} PassedIff(c: Course, order: seq<ModuleId>, m: ModuleId)
    requires Ordered(c.g, order) && m in order
    ensures PassedAt(c, order, m) <==>
      && m in c.delivered && (forall k :: 0 <= k < |c.g[m]| ==> PassedAt(c, order, c.g[m][k]))
      && m in c.progress && c.progress[m].Progress? && c.progress[m].gatesHold
      && (c.progress[m].state == Provisional || c.progress[m].state == Mastered)
  {
    UnlockedIff(c, order, m, 0);
  }

  /** A delivered module is locked exactly while one of its prerequisites is not passed, or was stored as locked. */
  lemma {:induction false} LockedIff(c: Course, order: seq<ModuleId>, m: ModuleId)
    requires Ordered(c.g, order) && m in order
    ensures ModuleStatus(c, order, m) == Locked <==>
      m in c.delivered && ((exists p :: p in c.g[m] && !PassedAt(c, order, p)) || Recorded(c, m) == Locked)
  {
    UnlockedIff(c, order, m, 0);
    forall p | p in c.g[m] && !PassedAt(c, order, p)
      ensures !IsUnlocked(c, order, m, 0)
    {
      var k :| 0 <= k < |c.g[m]| && c.g[m][k] == p;
      assert !PassedAt(c, order, c.g[m][k]);
    }
  }

  /** A module that is neither planned nor locked has all its prerequisites passed, near and far. */
  lemma {:induction false} OpenModulesStandOnPassedOnes(c: Course, order: seq<ModuleId>, path: seq<ModuleId>)
    requires Ordered(c.g, order) && Walk(c.g, path) && path[0] in order && |path| >= 2
    requires ModuleStatus(c, order, path[0]) !in {Planned, Locked}
    ensures var last := path[|path| - 1];
      last in order && last in c.delivered && Passed(ModuleStatus(c, order, last))
    decreases |path|
  {
    assert Requires(c.g, path[0], path[1]);
    var k :| 0 <= k < |c.g[path[0]]| && c.g[path[0]][k] == path[1];
    UnlockedAt(c, order, path[0], 0, k);
    if |path| == 2 {
    } else {
      forall i | 0 <= i < |path[1..]| - 1
        ensures Requires(c.g, path[1..][i], path[1..][i + 1])
      {
        assert Requires(c.g, path[i + 1], path[i + 1 + 1]);
      }
      OpenModulesStandOnPassedOnes(c, order, path[1..]);
    }
  }

  /** Whatever order is used, the answers are the same. */
  lemma {:induction false} StatusIgnoresOrder(c: Course, order: seq<ModuleId>, other: seq<ModuleId>, m: ModuleId)
    requires Ordered(c.g, order) && Ordered(c.g, other) && m in order && m in other
    ensures ModuleStatus(c, order, m) == ModuleStatus(c, other, m)
    decreases Position(order, m), 1, 0
  {
    UnlockedIgnoresOrder(c, order, other, m, 0);
  }

  lemma {:induction false} UnlockedIgnoresOrder(c: Course, order: seq<ModuleId>, other: seq<ModuleId>, m: ModuleId, i: nat)
    requires Ordered(c.g, order) && Ordered(c.g, other) && m in order && m in other && i <= |c.g[m]|
    ensures IsUnlocked(c, order, m, i) == IsUnlocked(c, other, m, i)
    decreases Position(order, m), 0, |c.g[m]| - i
  {
    if i == |c.g[m]| {
    } else {
      var p := c.g[m][i];
      assert Requires(c.g, m, p);
      PositionDrops(c.g, order, m, p);
      PositionDrops(c.g, other, m, p);
      StatusIgnoresOrder(c, order, other, p);
      UnlockedIgnoresOrder(c, order, other, m, i + 1);
    }
  }
}
