/**
 * The behaviour of the `useDelayableState` hook, stated on values.
 *
 * A cell holds a current value and at most one pending delayed update. Real
 * timers are replaced by a logical clock `now` (milliseconds): a pending update
 * records the time at which its timer comes due, and `Advance` moves the clock
 * and applies the update once the clock has reached that time.
 */
module DelayableCell {
  import opened Wrappers

  /** A scheduled update: the value the timer callback stores and when it comes due. */
  datatype Timer<T> = Timer(value: T, deadline: nat)

  datatype Cell<T> = Cell(value: T, pending: Option<Timer<T>>, now: nat)

  /** A pending update always lies in the future: a due one has already been applied. */
  predicate Valid<T>(c: Cell<T>) {
    c.pending.Some? ==> c.now < c.pending.value.deadline
  }

  /** The state right after the hook is first called with `initial`. */
  function Init<T>(initial: T): Cell<T> {
    Cell(initial, None, 0)
  }

  /** Cancel the pending update, if any; the value stays as it is. */
  function Clear<T>(c: Cell<T>): (r: Cell<T>)
    ensures r.value == c.value && r.now == c.now
    ensures r.pending == None
  {
    c.(pending := None)
  }

  /**
   * The setter the hook returns: it always cancels the pending update first;
   * a zero delay then stores the value at once, a positive one schedules it.
   */
  function Set<T>(c: Cell<T>, v: T, delay: nat): (r: Cell<T>)
    ensures Valid(r) && r.now == c.now
    ensures delay == 0 ==> r.value == v && r.pending == None
    ensures delay > 0 ==> r.value == c.value && r.pending == Some(Timer(v, c.now + delay))
  {
    var cleared := Clear(c);
    if delay == 0 then cleared.(value := v)
    else cleared.(pending := Some(Timer(v, c.now + delay)))
  }

  /** Let `dt` milliseconds pass; the pending update fires if it comes due meanwhile. */
  function Advance<T>(c: Cell<T>, dt: nat): (r: Cell<T>)
    ensures r.now == c.now + dt
    ensures c.pending.Some? && c.pending.value.deadline <= c.now + dt ==>
      r.value == c.pending.value.value && r.pending == None
    ensures !(c.pending.Some? && c.pending.value.deadline <= c.now + dt) ==>
      r.value == c.value && r.pending == c.pending
  {
    var t := c.now + dt;
    if c.pending.Some? && c.pending.value.deadline <= t then
      Cell(c.pending.value.value, None, t)
    else
      c.(now := t)
  }

  /** What can happen to a cell: a call of the setter, of the clear function, or time passing. */
  datatype Event<T> = SetTo(v: T, delay: nat) | Cancel | Wait(dt: nat)

  function Step<T>(c: Cell<T>, e: Event<T>): Cell<T> {
    match e
    case SetTo(v, delay) => Set(c, v, delay)
    case Cancel => Clear(c)
    case Wait(dt) => Advance(c, dt)
  }

  /** The state after the events `es`, in order. */
  function Run<T>(c: Cell<T>, es: seq<Event<T>>): Cell<T>
    decreases |es|
  {
    if es == [] then c else Step(Run(c, es[..|es| - 1]), es[|es| - 1])
  }

  /** The time that passes during `es`. */
  function Elapsed<T>(es: seq<Event<T>>): nat
    decreases |es|
  {
    if es == [] then 0
    else Elapsed(es[..|es| - 1]) + (if es[|es| - 1].Wait? then es[|es| - 1].dt else 0)
  }

  predicate OnlyWaits<T>(es: seq<Event<T>>) {
    forall i :: 0 <= i < |es| ==> es[i].Wait?
  }

  /** Every event keeps a valid cell valid. */
  lemma StepKeepsValid<T>(c: Cell<T>, e: Event<T>)
    requires Valid(c)
    ensures Valid(Step(c, e))
  {
  }

  /** Any run keeps the cell valid, and the clock advances by exactly the time waited. */
  lemma {:induction false} RunKeepsValid<T>(c: Cell<T>, es: seq<Event<T>>)
    requires Valid(c)
    ensures Valid(Run(c, es))
    ensures Run(c, es).now == c.now + Elapsed(es)
    decreases |es|
  {
    if es != [] {
      RunKeepsValid(c, es[..|es| - 1]);
      StepKeepsValid(Run(c, es[..|es| - 1]), es[|es| - 1]);
    }
  }

  /** Running two traces one after the other is running their concatenation. */
  lemma {:induction false} RunAppend<T>(c: Cell<T>, a: seq<Event<T>>, b: seq<Event<T>>)
    ensures Run(c, a + b) == Run(Run(c, a), b)
    decreases |b|
  {
    if b == [] {
      assert a + b == a;
    } else {
      var b' := b[..|b| - 1];
      assert (a + b)[..|a + b| - 1] == a + b';
      RunAppend(c, a, b');
    }
  }

  /** The time waited over two traces is the sum of the times waited over each. */
  lemma {:induction false} ElapsedAppend<T>(a: seq<Event<T>>, b: seq<Event<T>>)
    ensures Elapsed(a + b) == Elapsed(a) + Elapsed(b)
    decreases |b|
  {
    if b == [] {
      assert a + b == a;
    } else {
      var b' := b[..|b| - 1];
      assert (a + b)[..|a + b| - 1] == a + b';
      ElapsedAppend(a, b');
    }
  }

  /** Waiting `x` and then `y` milliseconds is the same as waiting `x + y` at once. */
  lemma AdvanceAdditive<T>(c: Cell<T>, x: nat, y: nat)
    requires Valid(c)
    ensures Advance(Advance(c, x), y) == Advance(c, x + y)
  {
  }

  /** A stretch of pure waiting acts as one single wait of the total duration. */
  lemma {:induction false} WaitsAreOneAdvance<T>(c: Cell<T>, ws: seq<Event<T>>)
    requires Valid(c) && OnlyWaits(ws)
    ensures Run(c, ws) == Advance(c, Elapsed(ws))
    decreases |ws|
  {
    if ws != [] {
      var p := ws[..|ws| - 1];
      WaitsAreOneAdvance(c, p);
      AdvanceAdditive(c, Elapsed(p), ws[|ws| - 1].dt);
    }
  }

  /**
   * A delayed set takes effect exactly when its delay has elapsed: before that
   * the old value stays and the update is still pending; from then on the new
   * value holds and nothing is pending.
   */
  lemma {:induction false} DelayedSetTakesEffect<T>(c: Cell<T>, v: T, delay: nat, ws: seq<Event<T>>)
    requires delay > 0 && OnlyWaits(ws)
    ensures var r := Run(Set(c, v, delay), ws);
      r.now == c.now + Elapsed(ws) &&
      if Elapsed(ws) >= delay then r.value == v && r.pending == None
      else r.value == c.value && r.pending == Some(Timer(v, c.now + delay))
  {
    WaitsAreOneAdvance(Set(c, v, delay), ws);
  }

  /**
   * A pending update that a later set or clear supersedes before it comes
   * due leaves no trace: whatever follows, the run is the one in which it was
   * never requested.
   */
  lemma {:induction false} SupersededLeavesNoTrace<T>(c: Cell<T>, v: T, delay: nat, ws: seq<Event<T>>, later: Event<T>, es: seq<Event<T>>)
    requires delay > 0 && OnlyWaits(ws) && Elapsed(ws) < delay && !later.Wait?
    ensures Run(Set(c, v, delay), ws + [later] + es) == Run(Clear(c), ws + [later] + es)
  {
    DelayedSetTakesEffect(c, v, delay, ws);
    ClearedStaysPut(c, ws);
    RunAppend(Set(c, v, delay), ws, [later]);
    RunAppend(Clear(c), ws, [later]);
    RunAppend(Set(c, v, delay), ws + [later], es);
    RunAppend(Clear(c), ws + [later], es);
  }

  /**
   * After a clear (also the one run on unmount) the value never changes again
   * while only time passes, however long.
   */
  lemma {:induction false} ClearedStaysPut<T>(c: Cell<T>, ws: seq<Event<T>>)
    requires OnlyWaits(ws)
    ensures Run(Clear(c), ws) == Cell(c.value, None, c.now + Elapsed(ws))
  {
    WaitsAreOneAdvance(Clear(c), ws);
  }
}
