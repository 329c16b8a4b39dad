/** Any number of feature cursors over one engine, opened, advanced, moved and destroyed in any order. */
module FeatureCursorRuns {
  import opened Bytes
  import opened FeatureCursor

  type Handle = nat

  datatype Engine = Engine(control: Control, cursors: map<Handle, Cursor>)

  const IDLE := Engine(Control(0, 0, 0), map[])

  datatype Action =
    | Open(h: Handle, request: Request)
    | Advance(h: Handle, cancelled: bool, read: ReadOutcome)
    | Move(h: Handle, fid: uint32)
    | Destroy(h: Handle)
    | Reopen

  /** Reopening is refused while a cursor is active; 0 is skipped when the generation wraps. */
  function Reopened(c: Control): Control {
    if c.active != 0 then c
    else
      var next := (c.openGeneration + 1) % TWO_64;
      c.(openGeneration := if next == 0 then 1 else next)
  }

  function Do(e: Engine, a: Action): Engine {
    match a
    case Open(h, request) =>
      if h in e.cursors then e
      else
        var (c, control) := Opened(request, e.control);
        Engine(control, e.cursors[h := c])
    case Advance(h, cancelled, read) =>
      if h !in e.cursors then e
      else
        var step := NextStep(e.cursors[h], e.control, cancelled, read);
        Engine(step.control, e.cursors[h := step.cursor])
    case Move(h, fid) =>
      if h !in e.cursors then e
      else
        var (c, control, _) := MoveStep(e.cursors[h], e.control, fid);
        Engine(control, e.cursors[h := c])
    case Destroy(h) =>
      if h !in e.cursors then e
      else Engine(Unregister(e.control, e.cursors[h].generation), e.cursors - {h})
    case Reopen => e.(control := Reopened(e.control))
  }

  function Run(e: Engine, actions: seq<Action>): Engine
    decreases |actions|
  {
    if actions == [] then e else Do(Run(e, actions[..|actions| - 1]), actions[|actions| - 1])
  }

  predicate Idle(c: Cursor) {
    c.state != Ready && c.generation == 0
  }

  predicate Holds(c: Cursor, control: Control) {
    c.state == Ready && c.generation == control.active != 0 && EngineCurrent(c, control)
  }

  /** Nobody holds the engine's lease, or exactly one cursor does and is the only one that is ready. */
  predicate HeldBy(e: Engine, holder: Option<Handle>) {
    match holder
    case None => e.control.active == 0 && forall h <- e.cursors :: Idle(e.cursors[h])
    case Some(g) => g in e.cursors && Holds(e.cursors[g], e.control) && forall h <- e.cursors :: h != g ==> Idle(e.cursors[h])
  }

  ghost predicate Inv(e: Engine) {
    exists holder :: HeldBy(e, holder)
  }

  /** A call on one cursor leaves it idle, or makes or keeps it the holder; another holder is untouched. */
  predicate CallOk(before: Cursor, control: Control, after: Cursor, changed: Control) {
    && (Holds(after, changed) || (Idle(after) && (Holds(before, control) ==> changed.active == 0)))
    && (Idle(before) && control.active != 0 ==> Idle(after) && changed == control)
    && (Idle(before) && control.active == 0 && Idle(after) ==> changed.active == 0)
  }

  lemma {:induction false} NextCallOk(c: Cursor, control: Control, cancelled: bool, read: ReadOutcome)
    requires Idle(c) || Holds(c, control)
    ensures var step := NextStep(c, control, cancelled, read); CallOk(c, control, step.cursor, step.control)
  {
  }

  lemma {:induction false} MoveCallOk(c: Cursor, control: Control, fid: uint32)
    requires Idle(c) || Holds(c, control)
    ensures var (moved, changed, _) := MoveStep(c, control, fid); CallOk(c, control, moved, changed)
  {
  }

  lemma {:induction false} CallKeepsHolder(e: Engine, holder: Option<Handle>, h: Handle, c: Cursor, changed: Control)
    requires HeldBy(e, holder) && h in e.cursors && CallOk(e.cursors[h], e.control, c, changed)
    ensures Inv(Engine(changed, e.cursors[h := c]))
  {
    var after := Engine(changed, e.cursors[h := c]);
    if Holds(c, changed) {
      assert HeldBy(after, Some(h));
    } else if holder == Some(h) || holder == None {
      assert HeldBy(after, None);
    } else {
      assert HeldBy(after, holder);
    }
  }

  lemma {:induction false} OpenKeepsHolder(e: Engine, holder: Option<Handle>, h: Handle, request: Request)
    requires HeldBy(e, holder) && h !in e.cursors
    ensures Inv(Do(e, Open(h, request)))
  {
    var after := Do(e, Open(h, request));
    if after.cursors[h].state == Ready {
      assert HeldBy(after, Some(h));
    } else {
      assert HeldBy(after, holder);
    }
  }

  lemma {:induction false} DestroyKeepsHolder(e: Engine, holder: Option<Handle>, h: Handle)
    requires HeldBy(e, holder) && h in e.cursors
    ensures Inv(Do(e, Destroy(h)))
  {
    assert HeldBy(Do(e, Destroy(h)), if holder == Some(h) then None else holder);
  }

  lemma {:induction false} InvKept(e: Engine, a: Action)
    requires Inv(e)
    ensures Inv(Do(e, a))
  {
    var holder :| HeldBy(e, holder);
    match a
    case Open(h, request) =>
      if h !in e.cursors {
        OpenKeepsHolder(e, holder, h, request);
      }
    case Advance(h, cancelled, read) =>
      if h in e.cursors {
        NextCallOk(e.cursors[h], e.control, cancelled, read);
        var step := NextStep(e.cursors[h], e.control, cancelled, read);
        CallKeepsHolder(e, holder, h, step.cursor, step.control);
      }
    case Move(h, fid) =>
      if h in e.cursors {
        MoveCallOk(e.cursors[h], e.control, fid);
        var moved := MoveStep(e.cursors[h], e.control, fid);
        CallKeepsHolder(e, holder, h, moved.0, moved.1);
      }
    case Destroy(h) =>
      if h in e.cursors {
        DestroyKeepsHolder(e, holder, h);
      }
    case Reopen =>
      assert HeldBy(Do(e, Reopen), holder);
  }

  /** Once the engine is reopened, no cursor of before can be moved or delivers anything. */
  lemma ReopenedLeavesNone(e: Engine, h: Handle, cancelled: bool, read: ReadOutcome, fid: uint32)
    requires Inv(e) && e.control.active == 0 && h in e.cursors && EngineCurrent(e.cursors[h], e.control)
    ensures var t := Do(e, Reopen);
      && t.control == e.control.(openGeneration := t.control.openGeneration) && t.cursors == e.cursors
      && t.control.openGeneration == (if e.control.openGeneration == TWO_64 - 1 then 1 else e.control.openGeneration + 1)
      && NextStep(t.cursors[h], t.control, cancelled, read).delivered.None?
      && !MoveStep(t.cursors[h], t.control, fid).2 && MoveStep(t.cursors[h], t.control, fid).0.state == Failed
  {
  }

  lemma {:induction false} InvAlways(actions: seq<Action>)
    ensures Inv(Run(IDLE, actions))
  {
    if actions == [] {
      assert HeldBy(IDLE, None);
    } else {
      InvAlways(actions[..|actions| - 1]);
      InvKept(Run(IDLE, actions[..|actions| - 1]), actions[|actions| - 1]);
    }
  }

  /**
   * Whatever is done to any number of cursors: at most one is ready, the engine's lease is taken exactly
   * while one is, and the engine a ready cursor was planned on is never reopened under it.
   */
  lemma {:induction false} OneReadyCursor(actions: seq<Action>, g: Handle, h: Handle)
    ensures var e := Run(IDLE, actions);
      && (e.control.active != 0 <==> exists k :: k in e.cursors && e.cursors[k].state == Ready)
      && (g in e.cursors && e.cursors[g].state == Ready ==>
            && e.control.active == e.cursors[g].generation && EngineCurrent(e.cursors[g], e.control)
            && (h in e.cursors && e.cursors[h].state == Ready ==> g == h))
  {
    InvAlways(actions);
    var e := Run(IDLE, actions);
    var holder :| HeldBy(e, holder);
    if holder.Some? {
      assert holder.value in e.cursors && e.cursors[holder.value].state == Ready;
    }
  }
}
