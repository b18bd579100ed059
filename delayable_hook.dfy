/**
 * The hook's state as the component holds it: the value `useState` keeps, the
 * `timeout` ref that remembers the id of the last timer scheduled, and the
 * host's queue of timers that have been scheduled and neither fired nor been
 * cleared. `setTimeout` and `clearTimeout` become updates of that queue, and
 * the host's clock becomes the field `now`.
 */
module DelayableHook {
  import opened Wrappers
  import DelayableCell

  /** A timer in the host's queue: its id, the value its callback stores, and when it is due. */
  datatype Scheduled<T> = Scheduled(id: nat, value: T, deadline: nat)

  /**
   * `clearTimeout(id)`: the queue without the timer that has this id. An
   * absent id (the ref before any timer was scheduled) cancels nothing.
   */
  function Cancel<T>(queue: seq<Scheduled<T>>, id: Option<nat>): (r: seq<Scheduled<T>>)
    ensures forall i :: 0 <= i < |r| ==> Some(r[i].id) != id && r[i] in queue
    ensures forall i :: 0 <= i < |queue| && Some(queue[i].id) != id ==> queue[i] in r
  {
    if queue == [] then []
    else if Some(queue[0].id) == id then Cancel(queue[1..], id)
    else [queue[0]] + Cancel(queue[1..], id)
  }

  class DelayableState<T> {
    var value: T
    var timeout: Option<nat>
    var queue: seq<Scheduled<T>>
    var nextId: nat
    var now: nat

    /**
     * At most one timer of this cell is ever outstanding, it is the one the
     * ref names, and it has not come due yet.
     */
    ghost predicate Valid()
      reads this
    {
      |queue| <= 1 &&
      (|queue| == 1 ==> timeout == Some(queue[0].id) && queue[0].id < nextId && now < queue[0].deadline)
    }

    /** The cell this state stands for. */
    function Model(): DelayableCell.Cell<T>
      reads this
    {
      DelayableCell.Cell(
        value,
        if queue == [] then None else Some(DelayableCell.Timer(queue[0].value, queue[0].deadline)),
        now)
    }

    /** The first call of the hook: the initial value, an empty ref, no timer. */
    constructor (initial: T)
      ensures Valid() && Model() == DelayableCell.Init(initial)
      ensures timeout == None && queue == [] && nextId == 0
    {
      value := initial;
      timeout := None;
      queue := [];
      nextId := 0;
      now := 0;
    }

    /** `_clearTimeout`: cancel the timer the ref names; also the cleanup run on unmount. */
    method Clear()
      requires Valid()
      modifies this
      ensures Valid() && Model() == DelayableCell.Clear(old(Model()))
      ensures queue == [] && value == old(value) && timeout == old(timeout) && nextId == old(nextId)
    {
      queue := Cancel(queue, timeout);
    }

    /** `setStateWithDelay`: cancel the pending timer, then store at once or schedule. */
    method Set(v: T, delay: nat)
      requires Valid()
      modifies this
      ensures Valid() && Model() == DelayableCell.Set(old(Model()), v, delay)
      ensures delay == 0 ==> queue == [] && timeout == old(timeout)
      ensures delay > 0 ==> queue == [Scheduled(old(nextId), v, now + delay)] && timeout == Some(old(nextId))
    {
      Clear();
      if delay == 0 {
        value := v;
      } else {
        var id := nextId;
        nextId := nextId + 1;
        queue := queue + [Scheduled(id, v, now + delay)];
        timeout := Some(id);
      }
    }

    /** The host clock moves on by `dt`; a timer that comes due runs its callback. */
    method Advance(dt: nat)
      requires Valid()
      modifies this
      ensures Valid() && Model() == DelayableCell.Advance(old(Model()), dt)
      ensures timeout == old(timeout) && nextId == old(nextId)
    {
      now := now + dt;
      if queue != [] && queue[0].deadline <= now {
        value := queue[0].value;
        queue := queue[1..];
      }
    }
  }
}
