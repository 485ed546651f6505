/** The live loop parameters of `Window` (src/window.cpp): the keyboard
    callback `onkeyboard`, which changes the swap interval, the animation
    speed, the frame-rate limit and the close flag, and the frame deadline
    that `exec` advances once per iteration.

    The window, the GL context and the console are not modelled. The key
    callback's `glfwSwapInterval` call is reported as an output; its console
    prints are dropped. The animation speed, assumed floating point (`speed`
    and `speedStep` are not declared in src/window.hpp), is touched only by W
    and S; it is kept abstract as the type parameter `Speed`, and
    the caller supplies what multiplying and dividing it by the step do. */
module LoopControl {
  import opened Wrappers

  // GLFW key codes and key actions (GLFW/glfw3.h).
  const KeyD: int := 68
  const KeyE: int := 69
  const KeyF: int := 70
  const KeyQ: int := 81
  const KeyR: int := 82
  const KeyS: int := 83
  const KeyV: int := 86
  const KeyW: int := 87
  const KeyEscape: int := 256

  const Press: int := 1

  /** The keys `onkeyboard` reacts to. */
  const BoundKeys: set<int> := {KeyEscape, KeyQ, KeyV, KeyW, KeyS, KeyE, KeyD, KeyR, KeyF}

  /** One call of the key callback; scancode and modifiers are ignored. */
  datatype KeyEvent = KeyEvent(key: int, action: int)

  /** The loop parameters: swap interval, frame-rate limit, animation speed,
      and the window's close flag. */
  datatype Controls<Speed> = Controls(vsync: int, fpsLimit: int, speed: Speed, shouldClose: bool)

  /** `speed *= speedStep` and `speed /= speedStep`. */
  datatype SpeedStep<!Speed> = SpeedStep(faster: Speed -> Speed, slower: Speed -> Speed)

  /** The state after the callback, and the argument of the `glfwSwapInterval`
      call it made, if any. */
  datatype KeyOutcome<Speed> = KeyOutcome(after: Controls<Speed>, swapInterval: Option<int>)

  // ------------------------------------------------------------ keyboard

  /** `onkeyboard`, as written: a run of independent `if`s, one per key, each
      firing only on a press. */
  function OnKeyboard<Speed>(c: Controls<Speed>, ev: KeyEvent, step: SpeedStep<Speed>): (r: KeyOutcome<Speed>)
    ensures ev.action != Press ==> r == KeyOutcome(c, None)
    ensures ev.key !in BoundKeys ==> r == KeyOutcome(c, None)
    ensures r.swapInterval.Some? <==> ev.key == KeyV && ev.action == Press
    ensures r.swapInterval.Some? ==> r.swapInterval.value == r.after.vsync
  {
    var pressed := ev.action == Press;
    var c1 := if (ev.key == KeyEscape || ev.key == KeyQ) && pressed then c.(shouldClose := true) else c;
    var c2 := if ev.key == KeyV && pressed then c1.(vsync := if c1.vsync == 0 then 1 else 0) else c1;
    var swap := if ev.key == KeyV && pressed then Some(c2.vsync) else None;
    var c3 := if ev.key == KeyW && pressed then c2.(speed := step.faster(c2.speed)) else c2;
    var c4 := if ev.key == KeyS && pressed then c3.(speed := step.slower(c3.speed)) else c3;
    var c5 := if ev.key == KeyE && pressed then c4.(fpsLimit := c4.fpsLimit + 10) else c4;
    var c6 := if ev.key == KeyD && pressed then c5.(fpsLimit := c5.fpsLimit - 10) else c5;
    var c7 := if ev.key == KeyR && pressed then c6.(fpsLimit := c6.fpsLimit + 1) else c6;
    var c8 := if ev.key == KeyF && pressed then c7.(fpsLimit := c7.fpsLimit - 1) else c7;
    KeyOutcome(c8, swap)
  }

  /** What a pressed key asks for: the key bindings read as a table. */
  datatype Command = Quit | ToggleVsync | Faster | Slower | AdjustFps(delta: int) | Ignore

  function Binding(key: int): (cmd: Command)
    ensures cmd == Ignore <==> key !in BoundKeys
  {
    if key == KeyEscape || key == KeyQ then Quit
    else if key == KeyV then ToggleVsync
    else if key == KeyW then Faster
    else if key == KeyS then Slower
    else if key == KeyE then AdjustFps(10)
    else if key == KeyD then AdjustFps(-10)
    else if key == KeyR then AdjustFps(1)
    else if key == KeyF then AdjustFps(-1)
    else Ignore
  }

  /** The effect of one command, touching only the field it names. */
  function Perform<Speed>(c: Controls<Speed>, cmd: Command, step: SpeedStep<Speed>): KeyOutcome<Speed> {
    match cmd
    case Quit => KeyOutcome(c.(shouldClose := true), None)
    case ToggleVsync =>
      var v := if c.vsync == 0 then 1 else 0;
      KeyOutcome(c.(vsync := v), Some(v))
    case Faster => KeyOutcome(c.(speed := step.faster(c.speed)), None)
    case Slower => KeyOutcome(c.(speed := step.slower(c.speed)), None)
    case AdjustFps(delta) => KeyOutcome(c.(fpsLimit := c.fpsLimit + delta), None)
    case Ignore => KeyOutcome(c, None)
  }

  /** The run of `if`s agrees with the table on every event: since the keys
      are distinct, at most one branch fires, and only on a press. */
  lemma OnKeyboardIsBinding<Speed>(c: Controls<Speed>, ev: KeyEvent, step: SpeedStep<Speed>)
    ensures OnKeyboard(c, ev, step)
            == if ev.action == Press then Perform(c, Binding(ev.key), step) else KeyOutcome(c, None)
  {
  }

  /** ESC and Q set the close flag and leave everything else alone. */
  lemma QuitKeys<Speed>(c: Controls<Speed>, key: int, step: SpeedStep<Speed>)
    requires key == KeyEscape || key == KeyQ
    ensures OnKeyboard(c, KeyEvent(key, Press), step) == KeyOutcome(c.(shouldClose := true), None)
  {
  }

  /** V switches the swap interval to 1 when it is 0 and to 0 otherwise, and
      passes the new value to `glfwSwapInterval`. */
  lemma ToggleVsyncKey<Speed>(c: Controls<Speed>, step: SpeedStep<Speed>)
    ensures var r := OnKeyboard(c, KeyEvent(KeyV, Press), step);
            && r.after == c.(vsync := if c.vsync == 0 then 1 else 0)
            && r.after.vsync in {0, 1}
            && r.swapInterval == Some(r.after.vsync)
  {
  }

  /** Two V presses restore the swap interval exactly when it was 0 or 1. */
  lemma ToggleVsyncTwice<Speed>(c: Controls<Speed>, step: SpeedStep<Speed>)
    ensures var press := KeyEvent(KeyV, Press);
            OnKeyboard(OnKeyboard(c, press, step).after, press, step).after == c
            <==> c.vsync in {0, 1}
  {
  }

  /** W and S apply the speed step and change nothing else. */
  lemma SpeedKeys<Speed>(c: Controls<Speed>, step: SpeedStep<Speed>)
    ensures OnKeyboard(c, KeyEvent(KeyW, Press), step) == KeyOutcome(c.(speed := step.faster(c.speed)), None)
    ensures OnKeyboard(c, KeyEvent(KeyS, Press), step) == KeyOutcome(c.(speed := step.slower(c.speed)), None)
  {
  }

  /** E, D, R and F add +10, -10, +1 and -1 to the frame-rate limit, with no
      bound in either direction, and change nothing else. */
  lemma FpsKeys<Speed>(c: Controls<Speed>, step: SpeedStep<Speed>)
    ensures OnKeyboard(c, KeyEvent(KeyE, Press), step) == KeyOutcome(c.(fpsLimit := c.fpsLimit + 10), None)
    ensures OnKeyboard(c, KeyEvent(KeyD, Press), step) == KeyOutcome(c.(fpsLimit := c.fpsLimit - 10), None)
    ensures OnKeyboard(c, KeyEvent(KeyR, Press), step) == KeyOutcome(c.(fpsLimit := c.fpsLimit + 1), None)
    ensures OnKeyboard(c, KeyEvent(KeyF, Press), step) == KeyOutcome(c.(fpsLimit := c.fpsLimit - 1), None)
  {
  }

  /** E then D, and R then F, return to the original state. */
  lemma FpsKeysCancel<Speed>(c: Controls<Speed>, step: SpeedStep<Speed>)
    ensures OnKeyboard(OnKeyboard(c, KeyEvent(KeyE, Press), step).after, KeyEvent(KeyD, Press), step).after == c
    ensures OnKeyboard(OnKeyboard(c, KeyEvent(KeyR, Press), step).after, KeyEvent(KeyF, Press), step).after == c
  {
  }

  /** The callback applied to a sequence of events, in order. */
  function OnKeys<Speed>(c: Controls<Speed>, events: seq<KeyEvent>, step: SpeedStep<Speed>): Controls<Speed>
    decreases |events|
  {
    if |events| == 0 then c else OnKeys(OnKeyboard(c, events[0], step).after, events[1..], step)
  }

  /** The key table applied to a sequence of events: each press performs its
      key's command, every other action is ignored. */
  function RunTable<Speed>(c: Controls<Speed>, events: seq<KeyEvent>, step: SpeedStep<Speed>): Controls<Speed>
    decreases |events|
  {
    if |events| == 0 then c
    else
      var ev := events[0];
      var next := if ev.action == Press then Perform(c, Binding(ev.key), step).after else c;
      RunTable(next, events[1..], step)
  }

  /** Calling the callback on each event in turn is running the key table
      over the same events. */
  lemma {:induction false} OnKeysIsTable<Speed>(c: Controls<Speed>, events: seq<KeyEvent>, step: SpeedStep<Speed>)
    ensures OnKeys(c, events, step) == RunTable(c, events, step)
    decreases |events|
  {
    if |events| > 0 {
      OnKeyboardIsBinding(c, events[0], step);
      OnKeysIsTable(OnKeyboard(c, events[0], step).after, events[1..], step);
    }
  }

  /** The speed is changed only by its keys: events that press none of W
      and S keep the speed. */
  lemma {:induction false} OnKeysKeepsSpeed<Speed>(c: Controls<Speed>, events: seq<KeyEvent>, step: SpeedStep<Speed>)
    requires forall i :: 0 <= i < |events| ==> events[i].key != KeyW && events[i].key != KeyS
    ensures OnKeys(c, events, step).speed == c.speed
    decreases |events|
  {
    if |events| > 0 {
      OnKeysKeepsSpeed(OnKeyboard(c, events[0], step).after, events[1..], step);
    }
  }

  /** `n` presses of D lower the limit by `10 * n`: any limit can be driven to
      zero or below. */
  lemma {:induction false} RepeatedD<Speed>(c: Controls<Speed>, n: nat, step: SpeedStep<Speed>)
    ensures OnKeys(c, Presses(KeyD, n), step) == c.(fpsLimit := c.fpsLimit - 10 * n)
    decreases n
  {
    if n > 0 {
      var events := Presses(KeyD, n);
      assert events[0] == KeyEvent(KeyD, Press);
      assert events[1..] == Presses(KeyD, n - 1);
      RepeatedD(c.(fpsLimit := c.fpsLimit - 10), n - 1, step);
    }
  }

  /** `n` presses of one key. */
  function Presses(key: int, n: nat): (events: seq<KeyEvent>)
    ensures |events| == n
    ensures forall i :: 0 <= i < n ==> events[i] == KeyEvent(key, Press)
  {
    seq(n, _ => KeyEvent(key, Press))
  }

  /** From any limit, enough D presses reach a limit of zero or less. */
  lemma FpsLimitUnbounded<Speed>(c: Controls<Speed>, step: SpeedStep<Speed>)
    ensures exists n: nat :: OnKeys(c, Presses(KeyD, n), step).fpsLimit <= 0
  {
    var n: nat := if c.fpsLimit <= 0 then 0 else c.fpsLimit;
    RepeatedD(c, n, step);
  }

  // ------------------------------------------------------- frame deadline

  const MicrosPerSecond: int := 1_000_000

  /** `static_cast<unsigned>(1'000'000.0 / fpsLimit)` in microseconds. For a
      positive limit the quotient is truncated, which for these operands is
      the integer quotient. For a limit below -1'000'000 the quotient lies in
      (-1, 0) and truncates to 0. For a limit in [-1'000'000, 0] the cast
      receives infinity or a value at most -1, which C++ leaves undefined:
      `None`. */
  function FrameInterval(fpsLimit: int): (r: Option<nat>)
    ensures r.Some? <==> fpsLimit > 0 || fpsLimit < -MicrosPerSecond
    ensures fpsLimit < -MicrosPerSecond ==> r.value == 0
    ensures 0 < fpsLimit <= MicrosPerSecond ==> 0 < r.value
    ensures MicrosPerSecond < fpsLimit ==> r.value == 0
  {
    if fpsLimit > 0 then Some(MicrosPerSecond / fpsLimit)
    else if fpsLimit < -MicrosPerSecond then Some(0)
    else None
  }

  /** For a positive limit the interval is the largest whole number of
      microseconds that many frames fit into one second. */
  lemma FrameIntervalIsFloor(fpsLimit: int)
    requires fpsLimit > 0
    ensures var n := FrameInterval(fpsLimit).value;
            n * fpsLimit <= MicrosPerSecond < (n + 1) * fpsLimit
  {
  }

  /** The next `waitUntil`: the previous frame time plus the interval. */
  function NextDeadline(lastFrameTime: int, fpsLimit: int): (r: Option<int>)
    ensures r.Some? <==> fpsLimit > 0 || fpsLimit < -MicrosPerSecond
    ensures r.Some? ==> lastFrameTime <= r.value
    ensures r.Some? && 0 < fpsLimit <= MicrosPerSecond ==> lastFrameTime < r.value
    ensures r.Some? && (fpsLimit > MicrosPerSecond || fpsLimit < -MicrosPerSecond) ==> r.value == lastFrameTime
  {
    match FrameInterval(fpsLimit)
    case None => None
    case Some(interval) => Some(lastFrameTime + interval)
  }

  /** With a positive limit the deadline never moves back, and it moves
      forward exactly when the limit is at most one frame per microsecond. */
  lemma DeadlineAdvances(lastFrameTime: int, fpsLimit: int)
    requires fpsLimit > 0
    ensures NextDeadline(lastFrameTime, fpsLimit).Some?
    ensures lastFrameTime <= NextDeadline(lastFrameTime, fpsLimit).value
    ensures lastFrameTime < NextDeadline(lastFrameTime, fpsLimit).value <==> fpsLimit <= MicrosPerSecond
  {
  }

  /** The frame time before iteration `k`: `start` for the first. */
  function Before(start: int, times: seq<int>, k: nat): int
    requires k <= |times|
  {
    if k == 0 then start else times[k - 1]
  }

  /** Each frame time is the previous one (at first `start`) plus the
      interval of the limit that iteration used. */
  predicate Paced(start: int, times: seq<int>, limits: seq<int>) {
    && |times| == |limits|
    && forall k :: 0 <= k < |times| ==>
         NextDeadline(Before(start, times, k), limits[k]) == Some(times[k])
  }

  lemma PacedExtend(start: int, times: seq<int>, limits: seq<int>, fpsLimit: int, next: int)
    requires Paced(start, times, limits)
    requires NextDeadline(Before(start, times, |times|), fpsLimit) == Some(next)
    ensures Paced(start, times + [next], limits + [fpsLimit])
  {
    var times', limits' := times + [next], limits + [fpsLimit];
    forall k | 0 <= k < |times'|
      ensures NextDeadline(Before(start, times', k), limits'[k]) == Some(times'[k])
    {
      if k < |times| {
        assert times'[k] == times[k] && limits'[k] == limits[k];
        if k > 0 {
          assert times'[k - 1] == times[k - 1];
        }
        assert NextDeadline(Before(start, times, k), limits[k]) == Some(times[k]);
      } else {
        assert limits'[k] == fpsLimit && times'[k] == next;
      }
    }
  }

  /** A defined deadline is never before the last frame time. */
  lemma DeadlineNotBefore(lastFrameTime: int, fpsLimit: int)
    requires NextDeadline(lastFrameTime, fpsLimit).Some?
    ensures lastFrameTime <= NextDeadline(lastFrameTime, fpsLimit).value
    ensures 0 < fpsLimit <= MicrosPerSecond ==> lastFrameTime < NextDeadline(lastFrameTime, fpsLimit).value
  {
  }

  /** No frame time is before the one preceding it. */
  predicate StepsForward(start: int, times: seq<int>) {
    forall i :: 0 <= i < |times| ==> Before(start, times, i) <= times[i]
  }

  lemma {:induction false} ChainForward(start: int, times: seq<int>, i: nat, j: nat)
    requires StepsForward(start, times)
    requires i <= j < |times|
    ensures start <= times[i] <= times[j]
    decreases j
  {
    if i < j {
      ChainForward(start, times, i, j - 1);
      assert Before(start, times, j) <= times[j];
    } else if 0 < i {
      ChainForward(start, times, i - 1, i - 1);
      assert Before(start, times, i) <= times[i];
    } else {
      assert Before(start, times, 0) <= times[0];
    }
  }

  /** Frame times never go back, and a limit of at most one frame per
      microsecond moves the frame time strictly forward. */
  lemma PacedMonotone(start: int, times: seq<int>, limits: seq<int>)
    requires Paced(start, times, limits)
    ensures forall i, j :: 0 <= i <= j < |times| ==> start <= times[i] <= times[j]
    ensures forall i :: 0 <= i < |times| && 0 < limits[i] <= MicrosPerSecond ==> Before(start, times, i) < times[i]
  {
    forall i | 0 <= i < |times|
      ensures Before(start, times, i) <= times[i]
      ensures 0 < limits[i] <= MicrosPerSecond ==> Before(start, times, i) < times[i]
    {
      assert NextDeadline(Before(start, times, i), limits[i]) == Some(times[i]);
      DeadlineNotBefore(Before(start, times, i), limits[i]);
    }
    forall i, j | 0 <= i <= j < |times|
      ensures start <= times[i] <= times[j]
    {
      ChainForward(start, times, i, j);
    }
  }

  /** Why the modelled loop stopped. */
  datatype LoopEnd = Closed | EventsExhausted | UndefinedInterval

  /** `exec`'s pacing: while the close flag is clear, compute `waitUntil`, sleep
      until it, make it the new `lastFrameTime`, and process the key events
      polled at the end of the iteration (`frames[i]` for iteration `i`).
      Returns the final controls, the frame time after each iteration, the
      limit each iteration used, and why the loop ended. */
  method Exec<Speed>(c0: Controls<Speed>, start: int, frames: seq<seq<KeyEvent>>, step: SpeedStep<Speed>)
    returns (c: Controls<Speed>, times: seq<int>, limits: seq<int>, end: LoopEnd)
    ensures |times| == |limits| <= |frames|
    ensures Paced(start, times, limits)
    ensures forall i, j :: 0 <= i <= j < |times| ==> start <= times[i] <= times[j]
    ensures forall i :: 0 <= i < |times| && 0 < limits[i] <= MicrosPerSecond ==>
              Before(start, times, i) < times[i]
    ensures c == OnFrames(c0, frames[..|times|], step)
    ensures forall k :: 0 <= k < |times| ==>
              limits[k] == OnFrames(c0, frames[..k], step).fpsLimit && !OnFrames(c0, frames[..k], step).shouldClose
    ensures end == Closed <==> c.shouldClose
    ensures end == UndefinedInterval ==> FrameInterval(c.fpsLimit).None?
    ensures end == EventsExhausted ==> |times| == |frames|
  {
    c := c0;
    times := [];
    limits := [];
    var last := start;
    var i := 0;
    while i < |frames| && !c.shouldClose && FrameInterval(c.fpsLimit).Some?
      invariant i == |times| == |limits| <= |frames|
      invariant Paced(start, times, limits)
      invariant last == Before(start, times, i)
      invariant c == OnFrames(c0, frames[..i], step)
      invariant RanOpen(c0, frames, limits, step)
    {
      RanOpenExtend(c0, frames, limits, step);
      times, limits, last := SleepUntilDeadline(start, times, limits, last, c.fpsLimit);
      c := PollEvents(c0, frames, i, c, step);
      i := i + 1;
    }
    end := if c.shouldClose then Closed else if i < |frames| then UndefinedInterval else EventsExhausted;
    PacedMonotone(start, times, limits);
  }

  /** Iteration `k` started with the close flag clear and paced itself with
      the limit the controls held then. */
  predicate RanOpen<Speed>(c0: Controls<Speed>, frames: seq<seq<KeyEvent>>, limits: seq<int>, step: SpeedStep<Speed>) {
    && |limits| <= |frames|
    && forall k :: 0 <= k < |limits| ==>
         limits[k] == OnFrames(c0, frames[..k], step).fpsLimit && !OnFrames(c0, frames[..k], step).shouldClose
  }

  lemma RanOpenExtend<Speed>(c0: Controls<Speed>, frames: seq<seq<KeyEvent>>, limits: seq<int>, step: SpeedStep<Speed>)
    requires RanOpen(c0, frames, limits, step) && |limits| < |frames|
    requires !OnFrames(c0, frames[..|limits|], step).shouldClose
    ensures RanOpen(c0, frames, limits + [OnFrames(c0, frames[..|limits|], step).fpsLimit], step)
  {
  }

  /** One iteration's pacing: `waitUntil` is computed from the current limit,
      slept until, and becomes `lastFrameTime`. */
  method SleepUntilDeadline(start: int, times: seq<int>, limits: seq<int>, last: int, fpsLimit: int)
    returns (times': seq<int>, limits': seq<int>, waitUntil: int)
    requires Paced(start, times, limits) && last == Before(start, times, |times|)
    requires FrameInterval(fpsLimit).Some?
    ensures Paced(start, times', limits')
    ensures times' == times + [waitUntil] && limits' == limits + [fpsLimit]
    ensures waitUntil == Before(start, times', |times'|)
  {
    waitUntil := last + FrameInterval(fpsLimit).value;
    PacedExtend(start, times, limits, fpsLimit, waitUntil);
    times', limits' := times + [waitUntil], limits + [fpsLimit];
  }

  /** `glfwPollEvents`: the key callback runs on the events of iteration `i`. */
  method PollEvents<Speed>(c0: Controls<Speed>, frames: seq<seq<KeyEvent>>, i: nat, c: Controls<Speed>, step: SpeedStep<Speed>)
    returns (c': Controls<Speed>)
    requires i < |frames|
    requires c == OnFrames(c0, frames[..i], step)
    ensures c' == OnFrames(c0, frames[..i + 1], step)
  {
    OnFramesStep(c0, frames, i, step);
    c' := OnKeys(c, frames[i], step);
  }

  /** The key events of whole iterations, applied in order. */
  function OnFrames<Speed>(c: Controls<Speed>, frames: seq<seq<KeyEvent>>, step: SpeedStep<Speed>): Controls<Speed>
    decreases |frames|
  {
    if |frames| == 0 then c else OnKeys(OnFrames(c, frames[..|frames| - 1], step), frames[|frames| - 1], step)
  }

  lemma OnFramesStep<Speed>(c: Controls<Speed>, frames: seq<seq<KeyEvent>>, i: nat, step: SpeedStep<Speed>)
    requires i < |frames|
    ensures OnFrames(c, frames[..i + 1], step) == OnKeys(OnFrames(c, frames[..i], step), frames[i], step)
  {
    assert frames[..i + 1][..i] == frames[..i];
  }
}
