/** The checkpoint registry (main.cpp:118-120, 124-125) and the mouse-button
    handler that fills it (main.cpp:127-141), together with the conversion of
    window pixels to world coordinates used by the handler and by the per-tick
    pointer read (main.cpp:305-311). */
module Checkpoints {
  import opened Params

  datatype Checkpoint = Checkpoint(x: real, y: real, coef: real)

  /** The append-only checkpoint list and the two counters the drawing code
      sizes its buffers with. */
  datatype Registry = Registry(checkpoints: seq<Checkpoint>, positives: int, negatives: int)

  const Empty: Registry := Registry([], 0, 0)

  /** GLFW codes for the left and right mouse buttons and for a press. */
  const ButtonLeft: int := 0
  const ButtonRight: int := 1
  const ActionPress: int := 1

  const HalfWindow: real := (WindowSize / 2) as real

  /** Pixel to world conversion in the click handler (main.cpp:132-133). The
      window's pixel range [0, 640] maps onto [-1, 1], the y axis flipped, and
      the pixel is recovered from the world coordinate. */
  function ClickX(px: real): (x: real)
    ensures (x + 1.0) * HalfWindow == px
    ensures -1.0 <= x <= 1.0 <==> 0.0 <= px <= WindowSize as real
  {
    assert HalfWindow == 320.0;
    px / HalfWindow - 1.0
  }

  function ClickY(py: real): (y: real)
    ensures (1.0 - y) * HalfWindow == py
    ensures -1.0 <= y <= 1.0 <==> 0.0 <= py <= WindowSize as real
  {
    assert HalfWindow == 320.0;
    1.0 - py / HalfWindow
  }

  /** Pixel to world conversion of the per-tick pointer read (main.cpp:307-311),
      written in the source as shift, divide, negate. */
  function CursorX(px: real): (x: real)
    ensures (x + 1.0) * HalfWindow == px
    ensures -1.0 <= x <= 1.0 <==> 0.0 <= px <= WindowSize as real
  {
    assert HalfWindow == 320.0;
    (px - HalfWindow) / HalfWindow
  }

  function CursorY(py: real): (y: real)
    ensures (1.0 - y) * HalfWindow == py
    ensures -1.0 <= y <= 1.0 <==> 0.0 <= py <= WindowSize as real
  {
    assert HalfWindow == 320.0;
    -((py - HalfWindow) / HalfWindow)
  }

  /** The two conversions agree: a checkpoint placed by a click sits where the
      pointer is seen by the steering code. */
  lemma ClickMatchesCursor(px: real, py: real)
    ensures ClickX(px) == CursorX(px) && ClickY(py) == CursorY(py)
  {
    assert HalfWindow == 320.0;
  }

  /** Number of checkpoints the drawing code colours green (coefficient above
      zero) and red (the rest), main.cpp:201-212. */
  function CountPositive(cs: seq<Checkpoint>): (n: nat)
    ensures n <= |cs|
    ensures n == 0 <==> forall k :: 0 <= k < |cs| ==> cs[k].coef <= 0.0
  {
    if |cs| == 0 then 0
    else CountPositive(cs[..|cs| - 1]) + (if cs[|cs| - 1].coef > 0.0 then 1 else 0)
  }

  function CountNonPositive(cs: seq<Checkpoint>): (n: nat)
    ensures n + CountPositive(cs) == |cs|
  {
    if |cs| == 0 then 0
    else CountNonPositive(cs[..|cs| - 1]) + (if cs[|cs| - 1].coef > 0.0 then 0 else 1)
  }

  /** Both counts add up over a concatenation, so appending checkpoints
      adds exactly the count of the appended ones. */
  lemma {:induction false} CountsAppend(a: seq<Checkpoint>, b: seq<Checkpoint>)
    ensures CountPositive(a + b) == CountPositive(a) + CountPositive(b)
    ensures CountNonPositive(a + b) == CountNonPositive(a) + CountNonPositive(b)
  {
    if |b| > 0 {
      CountsAppend(a, b[..|b| - 1]);
      assert (a + b)[..|a + b| - 1] == a + b[..|b| - 1];
    } else {
      assert a + b == a;
    }
  }

  /** The counters match the checkpoints they count. */
  predicate Counted(reg: Registry) {
    reg.positives == CountPositive(reg.checkpoints) && reg.negatives == CountNonPositive(reg.checkpoints)
  }

  /** `mouse_button_callback` as written: a press appends one checkpoint at the
      pointer, with coefficient +checkpoint_coef for the left button and
      -checkpoint_coef for any other; the left button bumps `positives`, the
      right button bumps `negatives`, any other button bumps neither. A
      release changes nothing. */
  function OnButton(reg: Registry, button: int, action: int, px: real, py: real): (r: Registry)
    ensures action != ActionPress ==> r == reg
    ensures action == ActionPress ==>
      && |r.checkpoints| == |reg.checkpoints| + 1
      && r.checkpoints[..|reg.checkpoints|] == reg.checkpoints
      && r.checkpoints[|reg.checkpoints|].x == ClickX(px)
      && r.checkpoints[|reg.checkpoints|].y == ClickY(py)
      && (r.checkpoints[|reg.checkpoints|].coef > 0.0 <==> button == ButtonLeft)
      && (r.checkpoints[|reg.checkpoints|].coef == CheckpointCoef || r.checkpoints[|reg.checkpoints|].coef == -CheckpointCoef)
      && r.positives == reg.positives + (if button == ButtonLeft then 1 else 0)
      && r.negatives == reg.negatives + (if button == ButtonRight then 1 else 0)
  {
    if action != ActionPress then reg
    else
      var positives := if button == ButtonLeft then reg.positives + 1 else reg.positives;
      var negatives := if button == ButtonRight then reg.negatives + 1 else reg.negatives;
      var coef := CheckpointCoef * (if button == ButtonLeft then 1.0 else -1.0);
      Registry(reg.checkpoints + [Checkpoint(ClickX(px), ClickY(py), coef)], positives, negatives)
  }

  /** Left and right presses, and releases, keep the counters in step with the
      checkpoints. */
  lemma OnButtonKeepsCounts(reg: Registry, button: int, action: int, px: real, py: real)
    requires Counted(reg)
    requires action != ActionPress || button == ButtonLeft || button == ButtonRight
    ensures Counted(OnButton(reg, button, action, px, py))
  {
    var r := OnButton(reg, button, action, px, py);
    if action == ActionPress {
      assert r.checkpoints[..|r.checkpoints| - 1] == reg.checkpoints;
    }
  }

  /** Any other button (the middle one, say) breaks the count: its checkpoint
      is drawn red but `negatives` does not grow, so the red vertex buffer
      sized from `negatives` (main.cpp:187) is written one checkpoint past its
      end (main.cpp:203-205). */
  lemma OtherButtonBreaksCounts(reg: Registry, button: int, px: real, py: real)
    requires Counted(reg)
    requires button != ButtonLeft && button != ButtonRight
    ensures !Counted(OnButton(reg, button, ActionPress, px, py))
    ensures OnButton(reg, button, ActionPress, px, py).negatives
            == CountNonPositive(OnButton(reg, button, ActionPress, px, py).checkpoints) - 1
  {
    var r := OnButton(reg, button, ActionPress, px, py);
    assert r.checkpoints[..|r.checkpoints| - 1] == reg.checkpoints;
  }

  /** The handler with the evident intent: every press that appends a
      negative checkpoint bumps `negatives`. */
  function OnButtonCounted(reg: Registry, button: int, action: int, px: real, py: real): (r: Registry)
    ensures r.checkpoints == OnButton(reg, button, action, px, py).checkpoints
    ensures action == ActionPress ==> r.positives + r.negatives == reg.positives + reg.negatives + 1
    ensures Counted(reg) ==> Counted(r)
  {
    if action != ActionPress then reg
    else
      var r := OnButton(reg, button, action, px, py);
      var negatives := if button == ButtonLeft then reg.negatives else reg.negatives + 1;
      assert r.checkpoints[..|r.checkpoints| - 1] == reg.checkpoints;
      r.(negatives := negatives)
  }

  /** A sequence of presses and releases replayed with the corrected handler
      from an empty registry. */
  datatype Event = Event(button: int, action: int, px: real, py: real)

  function Replay(events: seq<Event>): (r: Registry)
    ensures Counted(r)
    ensures |r.checkpoints| <= |events|
  {
    if |events| == 0 then Empty
    else
      var e := events[|events| - 1];
      OnButtonCounted(Replay(events[..|events| - 1]), e.button, e.action, e.px, e.py)
  }
}
