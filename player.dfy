/**
 * The `VideoPlayer` component: the delayable cell that shows and hides the
 * overlay controls, the playback state mirrored from the video element's
 * play/pause/ended notifications, the seek clamp, and the play/pause label.
 */
module Player {
  import DelayableCell
  import DelayableHook
  import ControlVisibility

  /** The mirrored playback state; `Unknown` is the empty string it starts as. */
  datatype Playback = Unknown | Playing | Paused | Ended

  /** The label of the play/pause button: "Pause" while playing, "Play" otherwise. */
  function ButtonLabel(p: Playback): (text: string)
    ensures text == "Pause" <==> p == Playing
    ensures text == "Play" <==> p != Playing
  {
    if p == Playing then "Pause" else "Play"
  }

  function Dist(a: real, b: real): real {
    if a <= b then b - a else a - b
  }

  /**
   * `Math.min(Math.max(0, x), duration)`: for a non-negative duration, the
   * point of `[0, duration]` nearest to `x`, and `x` itself when it is in range.
   */
  function Clamp(x: real, duration: real): (r: real)
    ensures r <= duration
    ensures duration >= 0.0 ==> 0.0 <= r
    ensures 0.0 <= x <= duration ==> r == x
    ensures duration >= 0.0 ==> forall y :: 0.0 <= y <= duration ==> Dist(r, x) <= Dist(y, x)
  {
    var lower := if 0.0 <= x then x else 0.0;
    if lower <= duration then lower else duration
  }

  /**
   * `setTime`: the new playback position for a seek by `value` from `current`
   * (relative) or to `value` (absolute).
   */
  function SeekTarget(current: real, value: real, relative: bool, duration: real): (r: real)
    ensures duration >= 0.0 ==> 0.0 <= r <= duration
    ensures var target := if relative then current + value else value;
      0.0 <= target <= duration ==> r == target
  {
    Clamp(if relative then current + value else value, duration)
  }

  /** Clamping a position already clamped changes nothing. */
  lemma ClampIdempotent(x: real, duration: real)
    requires duration >= 0.0
    ensures Clamp(Clamp(x, duration), duration) == Clamp(x, duration)
  {
  }

  /** A larger target never gives an earlier position. */
  lemma ClampMonotone(x: real, y: real, duration: real)
    requires x <= y
    ensures Clamp(x, duration) <= Clamp(y, duration)
  {
  }

  class VideoPlayer {
    const controls: DelayableHook.DelayableState<bool>
    var playback: Playback

    ghost predicate Valid()
      reads this, controls
    {
      controls.Valid()
    }

    /** Whether the overlay controls are shown (`hidden` is its negation). */
    function ControlsShown(): bool
      reads this, controls
    {
      controls.value
    }

    /** Mounting: controls hidden, nothing pending, playback state unknown. */
    constructor ()
      ensures Valid() && fresh(controls)
      ensures controls.Model() == ControlVisibility.Initial() && playback == Unknown
    {
      controls := new DelayableHook.DelayableState(false);
      playback := Unknown;
    }

    method MouseEnter()
      requires Valid()
      modifies controls
      ensures Valid() && controls.Model() == ControlVisibility.Enter(old(controls.Model()))
      ensures ControlsShown() && controls.queue == []
    {
      controls.Set(true, 0);
    }

    method MouseLeave()
      requires Valid()
      modifies controls
      ensures Valid() && controls.Model() == ControlVisibility.Leave(old(controls.Model()))
      ensures ControlsShown() == old(ControlsShown()) && |controls.queue| == 1
    {
      controls.Set(false, ControlVisibility.HideDelay);
    }

    method MouseMove()
      requires Valid()
      modifies controls
      ensures Valid() && controls.Model() == ControlVisibility.Move(old(controls.Model()))
      ensures ControlsShown() && |controls.queue| == 1
    {
      controls.Set(true, 0);
      controls.Set(false, ControlVisibility.HideDelay);
    }

    /** Time passes on the host; a due hide runs. */
    method Tick(dt: nat)
      requires Valid()
      modifies controls
      ensures Valid() && controls.Model() == DelayableCell.Advance(old(controls.Model()), dt)
    {
      controls.Advance(dt);
    }

    /** Unmounting runs the hook's cleanup: the pending hide is cancelled. */
    method Unmount()
      requires Valid()
      modifies controls
      ensures Valid() && controls.Model() == DelayableCell.Clear(old(controls.Model()))
    {
      controls.Clear();
    }

    /** The video element reported that it started playing, paused or ended. */
    method Notify(p: Playback)
      requires p != Unknown
      modifies this
      ensures playback == p
    {
      playback := p;
    }
  }

  /** A pointer that enters, moves and leaves, seen through the component's methods. */
  method PointerSession()
  {
    var player := new VideoPlayer();
    assert !player.ControlsShown();
    player.MouseEnter();
    player.MouseMove();
    player.Tick(1500);
    assert player.ControlsShown();
    player.MouseMove();
    player.Tick(1500);
    assert player.ControlsShown();
    player.MouseLeave();
    player.Tick(1999);
    assert player.ControlsShown();
    player.Tick(1);
    assert !player.ControlsShown();
    player.MouseEnter();
    player.MouseLeave();
    player.Unmount();
    player.Tick(5000);
    assert player.ControlsShown();
  }
}
