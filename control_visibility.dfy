/**
 * The overlay controls' show/hide policy of `VideoPlayer`, built on a
 * delayable boolean cell: `true` means the controls are shown. Pointer
 * activity shows them at once; they hide `HideDelay` milliseconds after the
 * pointer leaves, or after the last move.
 */
module ControlVisibility {
  import opened Wrappers
  import opened DelayableCell

  const HideDelay: nat := 2000

  /** The controls start hidden. */
  function Initial(): (c: Cell<bool>)
    ensures Valid(c) && !c.value && c.pending == None
  {
    Init(false)
  }

  /** Mouse enter: show at once, which also cancels a pending hide. */
  function Enter(c: Cell<bool>): (r: Cell<bool>)
    ensures Valid(r) && r.value && r.pending == None && r.now == c.now
  {
    Set(c, true, 0)
  }

  /** Mouse leave: hide `HideDelay` milliseconds from now. */
  function Leave(c: Cell<bool>): (r: Cell<bool>)
    ensures Valid(r) && r.value == c.value && r.now == c.now
    ensures r.pending == Some(Timer(false, c.now + HideDelay))
  {
    Set(c, false, HideDelay)
  }

  /** Mouse move: show at once, then re-arm the hide. */
  function Move(c: Cell<bool>): (r: Cell<bool>)
    ensures Valid(r) && r.value && r.now == c.now
    ensures r.pending == Some(Timer(false, c.now + HideDelay))
  {
    Set(Set(c, true, 0), false, HideDelay)
  }

  /** What happens over the player: pointer events and time passing. */
  datatype Activity = MouseEnter | MouseLeave | MouseMove | Elapse(dt: nat)

  function Handle(c: Cell<bool>, a: Activity): Cell<bool> {
    match a
    case MouseEnter => Enter(c)
    case MouseLeave => Leave(c)
    case MouseMove => Move(c)
    case Elapse(dt) => Advance(c, dt)
  }

  /** The state after the activities `acts`, in order. */
  function Replay(c: Cell<bool>, acts: seq<Activity>): Cell<bool>
    decreases |acts|
  {
    if acts == [] then c else Handle(Replay(c, acts[..|acts| - 1]), acts[|acts| - 1])
  }

  /** The time that passes during `acts`. */
  function Duration(acts: seq<Activity>): nat
    decreases |acts|
  {
    if acts == [] then 0
    else Duration(acts[..|acts| - 1]) + (if acts[|acts| - 1].Elapse? then acts[|acts| - 1].dt else 0)
  }

  /** The time that has passed since the last pointer event of `acts` (or since the start). */
  function Quiet(acts: seq<Activity>): nat
    decreases |acts|
  {
    if acts == [] then 0
    else if acts[|acts| - 1].Elapse? then Quiet(acts[..|acts| - 1]) + acts[|acts| - 1].dt
    else 0
  }

  /** The last pointer event of `acts`, if there is one. */
  function LastPointer(acts: seq<Activity>): (r: Option<Activity>)
    ensures r.Some? ==> !r.value.Elapse?
    decreases |acts|
  {
    if acts == [] then None
    else if acts[|acts| - 1].Elapse? then LastPointer(acts[..|acts| - 1])
    else Some(acts[|acts| - 1])
  }

  /** The activities before the last pointer event of `acts`. */
  function BeforeLastPointer(acts: seq<Activity>): (r: seq<Activity>)
    ensures |r| <= |acts|
    decreases |acts|
  {
    if acts == [] then []
    else if acts[|acts| - 1].Elapse? then BeforeLastPointer(acts[..|acts| - 1])
    else acts[..|acts| - 1]
  }

  /** The calls each activity makes on the cell; a move is two calls of the setter. */
  function Calls(a: Activity): seq<Event<bool>> {
    match a
    case MouseEnter => [SetTo(true, 0)]
    case MouseLeave => [SetTo(false, HideDelay)]
    case MouseMove => [SetTo(true, 0), SetTo(false, HideDelay)]
    case Elapse(dt) => [Wait(dt)]
  }

  /** The calls the activities `acts` make on the cell, in order. */
  function Translate(acts: seq<Activity>): seq<Event<bool>>
    decreases |acts|
  {
    if acts == [] then [] else Translate(acts[..|acts| - 1]) + Calls(acts[|acts| - 1])
  }

  /**
   * Replaying pointer activity is running the cell on the calls the handlers
   * make, and takes the same time.
   */
  lemma {:induction false} ReplayIsRun(c: Cell<bool>, acts: seq<Activity>)
    ensures Replay(c, acts) == Run(c, Translate(acts))
    ensures Duration(acts) == Elapsed(Translate(acts))
    decreases |acts|
  {
    if acts != [] {
      var p, a := acts[..|acts| - 1], acts[|acts| - 1];
      ReplayIsRun(c, p);
      RunAppend(c, Translate(p), Calls(a));
      ElapsedAppend(Translate(p), Calls(a));
      var x := Run(c, Translate(p));
      if a == MouseMove {
        var show := [SetTo(true, 0)];
        assert Calls(a)[..1] == show && show[..0] == [];
        assert Run(x, show) == Set(x, true, 0);
        assert Run(x, Calls(a)) == Move(x);
        assert Elapsed(Calls(a)) == 0;
      }
    }
  }

  lemma HandleKeepsValid(c: Cell<bool>, a: Activity)
    requires Valid(c)
    ensures Valid(Handle(c, a))
  {
  }

  /**
   * The state after any activities, described by the last pointer event and
   * the quiet time since: after an enter the controls are shown with nothing
   * pending; after a move they are shown for `HideDelay` and then hidden;
   * after a leave they keep what they showed just before it for `HideDelay`
   * and are then hidden; with no pointer event yet, only time has passed.
   */
  lemma {:induction false} ReplayByLastPointer(c: Cell<bool>, acts: seq<Activity>)
    requires Valid(c)
    ensures var r := Replay(c, acts);
      var q := Quiet(acts);
      Valid(r) && r.now == c.now + Duration(acts) && q <= r.now &&
      var last := LastPointer(acts);
      if last == None then r == Advance(c, q)
      else if last == Some(MouseEnter) then r.value && r.pending == None
      else if last == Some(MouseMove) then
        if q < HideDelay then r.value && r.pending == Some(Timer(false, r.now - q + HideDelay))
        else !r.value && r.pending == None
      else // the last pointer event was a leave
        if q < HideDelay then
          r.value == Replay(c, BeforeLastPointer(acts)).value &&
          r.pending == Some(Timer(false, r.now - q + HideDelay))
        else !r.value && r.pending == None
    decreases |acts|
  {
    if acts != [] {
      var p := acts[..|acts| - 1];
      ReplayByLastPointer(c, p);
      HandleKeepsValid(Replay(c, p), acts[|acts| - 1]);
      if LastPointer(p) == None && acts[|acts| - 1].Elapse? {
        AdvanceAdditive(c, Quiet(p), acts[|acts| - 1].dt);
      }
    }
  }

  /**
   * The controls are shown after a run that starts hidden exactly when the
   * last pointer event was an enter, or a move or leave less than `HideDelay`
   * ago (a leave then only keeps them as they were).
   */
  lemma ShownByLastPointer(acts: seq<Activity>)
    ensures var shown := Replay(Initial(), acts).value;
      var last := LastPointer(acts);
      (last == None ==> !shown) &&
      (last == Some(MouseEnter) ==> shown) &&
      (last == Some(MouseMove) ==> shown == (Quiet(acts) < HideDelay)) &&
      (last == Some(MouseLeave) ==>
        shown == (Quiet(acts) < HideDelay && Replay(Initial(), BeforeLastPointer(acts)).value))
  {
    ReplayByLastPointer(Initial(), acts);
  }

  /** Mouse moves every `gap` milliseconds, `n` times after the first. */
  function Moves(n: nat, gap: nat): seq<Activity>
    decreases n
  {
    if n == 0 then [MouseMove] else Moves(n - 1, gap) + [Elapse(gap), MouseMove]
  }

  /**
   * The rolling hide: however long a run of moves less than `HideDelay` apart
   * lasts, the controls stay shown; after the last one they stay shown for
   * `HideDelay` more and are then hidden.
   */
  lemma {:induction false} RollingHide(c: Cell<bool>, n: nat, gap: nat, rest: nat)
    requires Valid(c)
    ensures Replay(c, Moves(n, gap) + [Elapse(rest)]).value == (rest < HideDelay)
  {
    var acts := Moves(n, gap) + [Elapse(rest)];
    assert acts[..|acts| - 1] == Moves(n, gap);
    assert LastPointer(Moves(n, gap)) == Some(MouseMove) && Quiet(Moves(n, gap)) == 0;
    ReplayByLastPointer(c, acts);
  }

  /** Enter, then a leave: a hide is pending, `HideDelay` from the leave. */
  lemma EnterThenLeave(c: Cell<bool>)
    ensures var r := Leave(Enter(c));
      r.value && r.pending == Some(Timer(false, c.now + HideDelay))
  {
  }
}
