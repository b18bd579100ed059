# react-video: the auto-hiding controls, modelled in Dafny

`VideoPlayer` (src/VideoPlayer.jsx) overlays play/pause and seek buttons on a
`<video>` element and hides them when the pointer is idle. The logic behind
this is the `useDelayableState` hook. It is a state cell whose setter either
stores a value at once or schedules it after a delay. Every call of the setter
first cancels the update still pending, and a clear function (also run on
unmount) cancels it without touching the value. The component keeps a boolean
"controls shown" in such a cell. It starts hidden. Mouse enter shows the
controls. Mouse leave hides them 2000 ms later. Mouse move shows them and
re-arms the 2000 ms hide.

Real timers are replaced by a logical clock in milliseconds.

- `wrappers.dfy` — `Option`.
- `delayable_cell.dfy` (module `DelayableCell`) — the hook's behaviour on
  values: a `Cell` with a value, at most one pending `Timer` and the clock;
  `Set`, `Clear`, `Advance`; event traces (`Run`) and the lemmas about them.
- `delayable_hook.dfy` (module `DelayableHook`) — class `DelayableState`, the
  hook's state as the component holds it: the value, the `timeout` ref, and
  the host's queue of scheduled timers (`setTimeout` appends, `clearTimeout`
  removes by id). Its invariant says that at most one timer is outstanding and
  that it is the one the ref names. Each method is proved to act on `Model()`
  as the matching `DelayableCell` function does.
- `control_visibility.dfy` (module `ControlVisibility`) — the show/hide policy
  on a boolean cell, pointer/time traces, and the characterisation of when the
  controls are shown.
- `player.dfy` (module `Player`) — class `VideoPlayer` (mouse handlers, host
  clock, unmount, playback notifications), the seek clamp and the button label.

A few facts about src/VideoPlayer.jsx that shape the model:
- The setter tests `!delay`, so only a zero or absent delay stores the value
  at once.
- The controls are hidden exactly when the cell holds `false`
  (`hidden={!showControls}`, line 85).
- The button label tells "playing" apart from every other playback state
  (line 91).

## Model

| member | source | states |
|---|---|---|
| `DelayableCell.Set` | src/VideoPlayer.jsx:31-39 | the setter always drops the pending update; delay 0 stores the value at once with nothing pending; a positive delay keeps the value and leaves exactly one pending update carrying the new value, due `delay` ms from now; the result is always valid |
| `DelayableCell.Clear` | src/VideoPlayer.jsx:27-29 | clearing removes the pending update and keeps the value and the clock |
| `DelayableCell.Advance` | src/VideoPlayer.jsx:36 | time passing moves the clock by `dt`; the pending update fires, storing its value and leaving nothing pending, exactly when the clock reaches its deadline; otherwise value and pending update are unchanged |
| `DelayableCell.RunKeepsValid` | src/VideoPlayer.jsx:31-38 | over any sequence of sets, clears and waits, a pending update is never overdue, and the clock moves by exactly the time waited |
| `DelayableCell.RunAppend` | src/VideoPlayer.jsx:31-38 | running two event sequences one after the other equals running their concatenation |
| `DelayableCell.ElapsedAppend` | src/VideoPlayer.jsx:36 | the time waited over two event sequences is the sum of the time waited over each |
| `DelayableCell.WaitsAreOneAdvance` | src/VideoPlayer.jsx:36 | from a valid state, any stretch of waiting acts as one wait of the total length |
| `DelayableCell.DelayedSetTakesEffect` | src/VideoPlayer.jsx:35-37 | after a delayed set and only waiting, the old value stays and the update stays pending while less than the delay has passed; once the delay has passed the new value holds and nothing is pending |
| `DelayableCell.SupersededLeavesNoTrace` | src/VideoPlayer.jsx:31-37 | a delayed update that a later set or clear replaces before it comes due, after any waiting shorter than its delay, has no effect on anything that follows: the run equals the one in which it was never requested |
| `DelayableCell.ClearedStaysPut` | src/VideoPlayer.jsx:27-30 | after a clear, including the one on unmount, waiting any time leaves the value unchanged and nothing pending |
| `DelayableHook.Cancel` | src/VideoPlayer.jsx:27-29 | `clearTimeout` removes exactly the timers with the ref's id and keeps every other timer; with no id stored it removes nothing |
| `DelayableHook.DelayableState.constructor` | src/VideoPlayer.jsx:24-26 | the hook starts with the initial value, an empty ref, no timer and no timer id used yet |
| `DelayableHook.DelayableState.Clear` | src/VideoPlayer.jsx:27-29 | the queue is left empty; value and ref are unchanged; the model is `DelayableCell.Clear` of the old one |
| `DelayableHook.DelayableState.Set` | src/VideoPlayer.jsx:31-39 | the old timer is cancelled; delay 0 leaves no timer and the ref as it was; a positive delay leaves one fresh timer whose id the ref holds; at most one timer is ever outstanding; the model is `DelayableCell.Set` of the old one |
| `DelayableHook.DelayableState.Advance` | src/VideoPlayer.jsx:36 | the host clock moves on and a timer that comes due runs its callback, storing its value; the model is `DelayableCell.Advance` of the old one |
| `ControlVisibility.Initial` | src/VideoPlayer.jsx:46 | the controls start hidden with no pending hide |
| `ControlVisibility.Enter` | src/VideoPlayer.jsx:68 | mouse enter shows the controls at once and leaves no hide pending |
| `ControlVisibility.Leave` | src/VideoPlayer.jsx:69 | mouse leave keeps the visibility and leaves exactly one hide pending, due 2000 ms from now |
| `ControlVisibility.Move` | src/VideoPlayer.jsx:70-73 | mouse move shows the controls and leaves exactly one hide pending, due 2000 ms from now, replacing any earlier one |
| `ControlVisibility.ReplayIsRun` | src/VideoPlayer.jsx:68-73 | replaying pointer activity equals running the cell on the setter calls the handlers make (a move being two calls), and takes the same time |
| `ControlVisibility.ReplayByLastPointer` | src/VideoPlayer.jsx:68-73 | after any pointer and time activity, the state is fixed by the last pointer event and the quiet time since: enter means shown with nothing pending; move means shown with a hide due 2000 ms after it, then hidden; leave means unchanged with a hide due 2000 ms after it, then hidden |
| `ControlVisibility.ShownByLastPointer` | src/VideoPlayer.jsx:46-73 | from the initial state, the controls are shown exactly when the last pointer event was an enter, a move less than 2000 ms ago, or a leave less than 2000 ms ago with the controls shown before it; with no pointer event they are hidden |
| `ControlVisibility.RollingHide` | src/VideoPlayer.jsx:70-73 | after any number of moves, at any spacing, the controls stay shown for less than 2000 ms after the last move and are hidden from 2000 ms on |
| `ControlVisibility.EnterThenLeave` | src/VideoPlayer.jsx:68-69 | enter then leave leaves the controls shown with one hide pending, a full 2000 ms from the leave |
| `Player.ButtonLabel` | src/VideoPlayer.jsx:91 | the button reads "Pause" exactly while playing and "Play" otherwise |
| `Player.Clamp` | src/VideoPlayer.jsx:62-64 | for a non-negative duration the position lies in `[0, duration]` and is the nearest such point to the target; a target in range is kept; the result never exceeds the duration |
| `Player.SeekTarget` | src/VideoPlayer.jsx:59-65 | a relative or absolute seek lands within `[0, duration]` and exactly on its target when the target is in range |
| `Player.ClampIdempotent` | src/VideoPlayer.jsx:62-64 | clamping an already clamped position changes nothing |
| `Player.ClampMonotone` | src/VideoPlayer.jsx:62-64 | a larger target never yields an earlier position |
| `Player.VideoPlayer.constructor` | src/VideoPlayer.jsx:44-46 | on mount the controls are hidden with nothing pending and the playback state is the empty one |
| `Player.VideoPlayer.MouseEnter` | src/VideoPlayer.jsx:68 | the controls are shown at once and no hide is pending |
| `Player.VideoPlayer.MouseLeave` | src/VideoPlayer.jsx:69 | visibility is unchanged and exactly one hide is pending |
| `Player.VideoPlayer.MouseMove` | src/VideoPlayer.jsx:70-73 | the controls are shown and exactly one hide is pending, re-armed from now |
| `Player.VideoPlayer.Tick` | src/VideoPlayer.jsx:36 | time passing fires a due hide, as `DelayableCell.Advance` says |
| `Player.VideoPlayer.Unmount` | src/VideoPlayer.jsx:30 | the cleanup cancels the pending hide and leaves the visibility as it is |
| `Player.VideoPlayer.Notify` | src/VideoPlayer.jsx:56-58 | a play, pause or ended notification (the only three the video element sends, lines 78-80) becomes the mirrored playback state |

## Left out

- Rendering, JSX markup, styled-components CSS and the opacity mapping (src/VideoPlayer.jsx:6-22, 74-99): presentation only.
- React's `useState`/`useRef`/`useEffect` machinery and render batching: a `setState` is taken to be visible before the next event.
- Real `setTimeout`/`clearTimeout`: the host's timer queue and clock are fields of `DelayableState`, and time moves only by `Advance`/`Tick`.
- `togglePlaying` and the `<video>` element's `play`, `pause` and `currentTime` assignment (lines 48-55, 62, 64): platform calls. Only the clamp arithmetic is modelled.
- Player.Clamp: positions are exact reals. Floating-point rounding and the `NaN` or infinite `duration` before metadata loads are not modelled.
- The `console.log` in the enter handler (line 68): it returns `undefined`, so the handler always goes on to show the controls.
- Negative delays: the code would schedule them. Delays are `nat` here.
- `clearControlsTimeout` (line 46): bound but never used.
