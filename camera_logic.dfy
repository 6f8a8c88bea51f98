/** The per-event and per-frame rules of the player camera, as pure
    functions over values: the weapon-slot step driven by mouse buttons, the
    two-target follow blend, the two-phase fade of the interaction hint and
    the change test that gates the field-of-view recompute. The class in
    module Camera applies them to its fields. */
module CameraLogic {
  import opened Mathf

  datatype Vec2 = Vec2(x: real, y: real)

  function Add(a: Vec2, b: Vec2): (r: Vec2) { Vec2(a.x + b.x, a.y + b.y) }

  function Sub(a: Vec2, b: Vec2): (r: Vec2) { Vec2(a.x - b.x, a.y - b.y) }

  datatype Option<T> = None | Some(value: T)

  /** What the camera reads from the player node in one call: its position
      in the parent's frame and the two flags it asks for. */
  datatype PlayerView = PlayerView(origin: Vec2, canMove: bool, inCutscene: bool)

  /** The input events the handler distinguishes: a mouse-button event with
      the engine's button index and pressed flag, and every other event. */
  datatype InputEvent = MouseButton(buttonIndex: int, pressed: bool) | OtherEvent

  /** Button indices of the engine's ButtonList for the two wheel directions. */
  const ButtonWheelUp: int := 4
  const ButtonWheelDown: int := 5

  /** The bounds the handler passes to Wrap: slots run from SlotMin up to,
      and excluding, SlotMax. */
  const SlotMin: int := 0
  const SlotMax: int := 2

  datatype InteractHintIcon = Eye | Gear | Hand | Mouth

  /** The enum member's ToString, which is the animation name it selects. */
  function IconName(icon: InteractHintIcon): (name: string)
  {
    match icon
    case Eye => "eye"
    case Gear => "gear"
    case Hand => "hand"
    case Mouth => "mouth"
  }

  /** Distinct icons select distinct animations, so comparing the current
      animation with the icon's name tells whether the icon changed. */
  lemma IconNameInjective(icon: InteractHintIcon, other: InteractHintIcon)
    ensures IconName(icon) == IconName(other) <==> icon == other
  {
    if icon != other {
      assert IconName(icon)[0] != IconName(other)[0];
    }
  }

  /** The viewport size the camera assumes. */
  const Resolution: Vec2 := Vec2(320.0, 180.0)

  /** Length of the hint countdown, and the remaining time above which the
      hint's opacity is eased rather than set. */
  const HintDuration: real := 0.5
  const FadeThreshold: real := 0.45

  // ---------------------------------------------------------------------
  // Weapon-slot selection

  /** The handled part of the input handler for a pressed mouse button:
      wheel-up increments, wheel-down decrements, then the slot is wrapped. */
  function SlotAfterPress(slot: int, button: int): (r: int)
    ensures SlotMin <= r < SlotMax
  {
    var afterUp := if button == ButtonWheelUp then slot + 1 else slot;
    var afterDown := if button == ButtonWheelDown then afterUp - 1 else afterUp;
    Wrap(afterDown, SlotMin, SlotMax)
  }

  /** How far a button moves the selection before wrapping. */
  function ScrollStep(button: int): (step: int)
  {
    if button == ButtonWheelUp then 1
    else if button == ButtonWheelDown then -1
    else 0
  }

  /** Whatever the starting value, a handled press leaves the slot in the
      wrap range, and the upper bound 2 itself is never selected. */
  lemma SlotInRange(slot: int, button: int)
    ensures SlotMin <= SlotAfterPress(slot, button) < SlotMax
    ensures SlotAfterPress(slot, button) == Wrap(slot + ScrollStep(button), SlotMin, SlotMax)
  {
  }

  /** Scrolling down from the first slot wraps round to the last one
      instead of clamping at 0. */
  lemma WheelDownFromFirstWraps()
    ensures SlotAfterPress(SlotMin, ButtonWheelDown) == SlotMax - 1
  {
    WrapIsEuclidean(SlotMin - 1, SlotMin, SlotMax);
  }

  /** A pressed button that is not a wheel only re-wraps the slot, which
      leaves an in-range slot as it was. */
  lemma NonWheelPressKeepsSlot(slot: int, button: int)
    requires SlotMin <= slot < SlotMax
    requires button != ButtonWheelUp && button != ButtonWheelDown
    ensures SlotAfterPress(slot, button) == slot
  {
    WrapIdempotent(slot, SlotMin, SlotMax);
  }

  /** Wheel-up followed by wheel-down returns to the slot one started from. */
  lemma WheelUpThenDownRestores(slot: int)
    requires SlotMin <= slot < SlotMax
    ensures SlotAfterPress(SlotAfterPress(slot, ButtonWheelUp), ButtonWheelDown) == slot
  {
    WrapOfShiftedWrap(slot + 1, -1, SlotMin, SlotMax);
    WrapIdempotent(slot, SlotMin, SlotMax);
  }

  /** The slot after a run of handled presses, first press first. */
  function SlotAfterPresses(slot: int, buttons: seq<int>): (r: int)
    decreases |buttons|
  {
    if buttons == [] then slot
    else SlotAfterPresses(SlotAfterPress(slot, buttons[0]), buttons[1..])
  }

  /** The net number of wheel steps in a run of presses. */
  function NetScroll(buttons: seq<int>): (net: int)
    decreases |buttons|
  {
    if buttons == [] then 0 else ScrollStep(buttons[0]) + NetScroll(buttons[1..])
  }

  /** Any run of handled presses from an in-range slot ends at the wrap of
      the start plus the net scroll, so only the parity of the net scroll
      matters and the selection never leaves the range. */
  lemma {:induction false} SlotAfterPressesIsNetWrap(slot: int, buttons: seq<int>)
    requires SlotMin <= slot < SlotMax
    ensures SlotAfterPresses(slot, buttons) == Wrap(slot + NetScroll(buttons), SlotMin, SlotMax)
    ensures SlotMin <= SlotAfterPresses(slot, buttons) < SlotMax
    decreases |buttons|
  {
    if buttons == [] {
      WrapIdempotent(slot, SlotMin, SlotMax);
    } else {
      var b, rest := buttons[0], buttons[1..];
      var next := SlotAfterPress(slot, b);
      SlotInRange(slot, b);
      SlotAfterPressesIsNetWrap(next, rest);
      WrapOfShiftedWrap(slot + ScrollStep(b), NetScroll(rest), SlotMin, SlotMax);
      assert slot + ScrollStep(b) + NetScroll(rest) == slot + NetScroll(buttons);
    }
  }

  // ---------------------------------------------------------------------
  // Follow blend

  /** The height by which the camera stays above the player. */
  function LookAhead(): (h: real) { Resolution.y / 4.0 }

  /** Where the vertical follow heads for a player at `anchor`. */
  function FollowTargetY(anchor: Vec2): (y: real) { anchor.y - LookAhead() }

  /** One follow step of the camera origin: x is damped toward the player and
      the already-damped x is then damped toward the mouse; y is damped toward
      the point above the player. */
  function FollowStep(pos: Vec2, anchor: Vec2, mouse: Vec2, delta: real): (r: Vec2)
    ensures delta == 0.0 ==> r == pos
    ensures delta * 4.0 == 1.0 ==> r.y == FollowTargetY(anchor)
  {
    var towardPlayer := Lerp(pos.x, anchor.x, delta * 4.0);
    var towardMouse := Lerp(towardPlayer, mouse.x, delta * 0.4);
    Vec2(towardMouse, Lerp(pos.y, FollowTargetY(anchor), delta * 4.0))
  }

  /** The new y reads only the old y, the player's y and delta: neither the
      mouse nor any x coordinate can change it. */
  lemma FollowYIgnoresMouse(pos: Vec2, anchor: Vec2, mouse: Vec2, otherMouse: Vec2,
                            otherPosX: real, otherAnchorX: real, delta: real)
    ensures FollowStep(pos, anchor, mouse, delta).y
         == FollowStep(Vec2(otherPosX, pos.y), Vec2(otherAnchorX, anchor.y), otherMouse, delta).y
  {
  }

  /** The vertical error to the target shrinks by the factor 1 - 4*delta each
      step; for 0 <= 4*delta <= 1 the new y lies between the old y and the
      target, and at 4*delta == 1 it lands on the target. */
  lemma FollowYApproachesTarget(pos: Vec2, anchor: Vec2, mouse: Vec2, delta: real)
    ensures FollowStep(pos, anchor, mouse, delta).y - FollowTargetY(anchor)
         == (1.0 - delta * 4.0) * (pos.y - FollowTargetY(anchor))
    ensures 0.0 <= delta * 4.0 <= 1.0 && pos.y <= FollowTargetY(anchor) ==>
              pos.y <= FollowStep(pos, anchor, mouse, delta).y <= FollowTargetY(anchor)
    ensures 0.0 <= delta * 4.0 <= 1.0 && FollowTargetY(anchor) <= pos.y ==>
              FollowTargetY(anchor) <= FollowStep(pos, anchor, mouse, delta).y <= pos.y
    ensures delta * 4.0 == 1.0 ==> FollowStep(pos, anchor, mouse, delta).y == FollowTargetY(anchor)
  {
    if 0.0 <= delta * 4.0 <= 1.0 {
      LerpBetween(pos.y, FollowTargetY(anchor), delta * 4.0);
    }
  }

  /** The mouse blend acts on the player-blended x: when 4*delta == 1 the
      intermediate x is the player's x exactly, so the result no longer
      depends on the old x and sits a tenth of the way toward the mouse. */
  lemma FollowXBlendsSequentially(pos: Vec2, otherPosX: real, anchor: Vec2, mouse: Vec2, delta: real)
    requires delta * 4.0 == 1.0
    ensures FollowStep(pos, anchor, mouse, delta).x == anchor.x + (mouse.x - anchor.x) * 0.1
    ensures FollowStep(pos, anchor, mouse, delta).x == FollowStep(Vec2(otherPosX, pos.y), anchor, mouse, delta).x
  {
    assert delta * 0.4 == 0.1;
  }

  /** A camera already above the player, with player and mouse on its
      vertical, stays where it is whatever delta is. */
  lemma FollowFixedPoint(pos: Vec2, anchor: Vec2, mouse: Vec2, delta: real)
    requires pos.x == anchor.x == mouse.x && pos.y == FollowTargetY(anchor)
    ensures FollowStep(pos, anchor, mouse, delta) == pos
  {
  }

  // ---------------------------------------------------------------------
  // Hint fade

  /** The hint opacity after one update while the countdown runs: eased
      toward timeLeft/0.5 above the threshold, set to it at or below. */
  function FadedAlpha(alpha: real, timeLeft: real, delta: real): (r: real)
    ensures 0.0 < timeLeft <= FadeThreshold ==> 0.0 < r <= 0.9
    ensures timeLeft > FadeThreshold && delta == 0.0 ==> r == alpha
    ensures timeLeft > FadeThreshold && delta * 2.0 == 1.0 ==> r == timeLeft / HintDuration
  {
    if timeLeft > FadeThreshold then Lerp(alpha, timeLeft / HintDuration, delta * 2.0)
    else timeLeft / HintDuration
  }

  /** In the late phase the opacity is exactly the remaining fraction of the
      countdown, whatever the previous opacity and delta were, so it lies in
      (0, 0.9]. */
  lemma FadeLinearPhase(alpha: real, timeLeft: real, delta: real)
    requires 0.0 < timeLeft <= FadeThreshold
    ensures FadedAlpha(alpha, timeLeft, delta) == timeLeft / HintDuration
    ensures 0.0 < FadedAlpha(alpha, timeLeft, delta) <= 0.9
  {
  }

  /** In the early phase, with a frame time of at most half a second, the
      opacity moves from its old value toward a target in (0.9, 1] without
      passing it, so an opacity in [0, 1] stays in [0, 1]. */
  lemma FadeEasedPhase(alpha: real, timeLeft: real, delta: real)
    requires FadeThreshold < timeLeft <= HintDuration
    requires 0.0 <= alpha <= 1.0 && 0.0 <= delta <= 0.5
    ensures 0.9 < timeLeft / HintDuration <= 1.0
    ensures alpha <= timeLeft / HintDuration ==>
              alpha <= FadedAlpha(alpha, timeLeft, delta) <= timeLeft / HintDuration
    ensures timeLeft / HintDuration <= alpha ==>
              timeLeft / HintDuration <= FadedAlpha(alpha, timeLeft, delta) <= alpha
    ensures 0.0 <= FadedAlpha(alpha, timeLeft, delta) <= 1.0
  {
    LerpBetween(alpha, timeLeft / HintDuration, delta * 2.0);
  }

  /** The easing weight is not clamped: a full second of frame time right
      after the hint appears drives the opacity to 2. */
  lemma FadeEasedOvershoots()
    ensures FadedAlpha(0.0, HintDuration, 1.0) == 2.0
  {
  }

  // ---------------------------------------------------------------------
  // Field-of-view change gate

  /** The recompute is requested exactly when the camera's global position
      differs from the remembered one and an occluder is configured. */
  function RecomputeRequested(previous: Vec2, current: Vec2, occluderPresent: bool): (r: bool)
    ensures previous == current ==> !r
    ensures !occluderPresent ==> !r
    ensures occluderPresent && (previous.x != current.x || previous.y != current.y) ==> r
  {
    occluderPresent && previous != current
  }

  /** Once the memo holds the current position, asking again at that position
      requests nothing, so two updates at one position request at most once;
      and without an occluder nothing is ever requested. */
  lemma GateFiresAtMostOnce(previous: Vec2, current: Vec2, occluderPresent: bool)
    ensures !RecomputeRequested(current, current, occluderPresent)
    ensures !occluderPresent ==> !RecomputeRequested(previous, current, occluderPresent)
  {
  }

  /** A camera resting at the follow fixed point, whose memo already holds
      its position, triggers no recompute on its next update. */
  lemma StationaryCameraRequestsNothing(pos: Vec2, anchor: Vec2, mouse: Vec2, delta: real, occluderPresent: bool)
    requires pos.x == anchor.x == mouse.x && pos.y == FollowTargetY(anchor)
    ensures !RecomputeRequested(pos, FollowStep(pos, anchor, mouse, delta), occluderPresent)
  {
    FollowFixedPoint(pos, anchor, mouse, delta);
  }
}
