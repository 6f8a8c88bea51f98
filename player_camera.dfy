/** The player camera as an object: the fields its handlers update in place
    and one method per handler. The engine's Timer node is replaced by the
    field timeLeft and the method TimerTick, whose timeout hides the hint;
    the field-of-view recompute is recorded as a count of requests. */
module Camera {
  import opened Mathf
  import opened CameraLogic

  /** What the input handler did with one event. */
  datatype InputOutcome =
    | Handled          // a pressed mouse button: the slot was stepped and wrapped
    | Ignored          // any other event, or a released button
    | Blocked          // the player cannot move or the inventory is open
    | NullPlayerFault  // no player: asking it whether it can move fails

  /** The countdown after `delta` seconds, floored at zero: it reaches zero
      exactly when `delta` covers the time left, and otherwise it lost exactly
      `delta`. */
  function CountdownAfter(timeLeft: real, delta: real): (r: real)
    ensures r >= 0.0
    ensures delta >= 0.0 && timeLeft >= 0.0 ==> r <= timeLeft
    ensures r == 0.0 <==> timeLeft <= delta
    ensures r > 0.0 ==> timeLeft - r == delta
  {
    if timeLeft - delta > 0.0 then timeLeft - delta else 0.0
  }

  class PlayerCamera {
    /** Global origin of the camera's parent. The parent is taken to be a
        pure translation that never moves, hence a constant. */
    const parentOrigin: Vec2
    /** Origin of the camera's own transform, in the parent's frame. */
    var position: Vec2
    /** The camera's global position as of the previous update. */
    var positionPrevious: Vec2
    var selectedWeaponSlot: int

    /** The world position the hint is pinned to. */
    var interactPos: Vec2
    var hintVisible: bool
    /** Alpha of the hint's modulate colour. */
    var hintAlpha: real
    /** The hint is a child of the camera: its position relative to it. */
    var hintOffset: Vec2
    var hintLabel: string
    var hintAnimation: string
    /** How often the hint's animation was reassigned. */
    var animationChanges: nat
    /** Remaining time of the hint countdown; zero once it has run out. */
    var timeLeft: real
    /** How often a field-of-view recompute was requested. */
    var fovRequests: nat

    ghost predicate Valid()
      reads this
    {
      SlotMin <= selectedWeaponSlot < SlotMax && 0.0 <= timeLeft <= HintDuration
    }

    /** The camera's global position: its origin carried by the parent's
        translation, from which the origin is recovered. */
    function GlobalPosition(): (g: Vec2)
      reads this
      ensures Sub(g, parentOrigin) == position
    {
      Add(parentOrigin, position)
    }

    /** The hint's global position: the camera's, carried by the hint's
        offset, so it moves with the camera until the hint is re-pinned. */
    function HintGlobalPosition(): (g: Vec2)
      reads this
      ensures Sub(g, GlobalPosition()) == hintOffset
    {
      Add(GlobalPosition(), hintOffset)
    }

    /** The state once the scene is ready: slot 0, previous position zero, the
        hint fully transparent and its countdown stopped. The camera origin and
        the hint's scene-given offset, visibility, label and animation are
        parameters. */
    constructor (parentOrigin: Vec2, origin: Vec2, hintOffset: Vec2, hintVisible: bool,
                 hintLabel: string, hintAnimation: string)
      ensures Valid()
      ensures this.parentOrigin == parentOrigin && position == origin
      ensures positionPrevious == Vec2(0.0, 0.0) && selectedWeaponSlot == 0
      ensures interactPos == Vec2(0.0, 0.0) && this.hintOffset == hintOffset
      ensures this.hintVisible == hintVisible && hintAlpha == 0.0
      ensures this.hintLabel == hintLabel && this.hintAnimation == hintAnimation
      ensures animationChanges == 0 && timeLeft == 0.0 && fovRequests == 0
    {
      this.parentOrigin := parentOrigin;
      position := origin;
      positionPrevious := Vec2(0.0, 0.0);
      selectedWeaponSlot := 0;
      interactPos := Vec2(0.0, 0.0);
      this.hintOffset := hintOffset;
      this.hintVisible := hintVisible;
      hintAlpha := 0.0;
      this.hintLabel := hintLabel;
      this.hintAnimation := hintAnimation;
      animationChanges := 0;
      timeLeft := 0.0;
      fovRequests := 0;
    }

    /** The input handler. Only the weapon slot can change, and only for a
        pressed mouse button while the player can move and the inventory is
        closed; the slot always stays in the wrap range. */
    method Input(player: Option<PlayerView>, inventoryOpen: bool, ev: InputEvent)
      returns (outcome: InputOutcome)
      requires Valid()
      modifies this`selectedWeaponSlot
      ensures Valid()
      ensures player.None? ==> outcome == NullPlayerFault
      ensures player.Some? && (!player.value.canMove || inventoryOpen) ==> outcome == Blocked
      ensures player.Some? && player.value.canMove && !inventoryOpen ==>
                outcome == (if ev.MouseButton? && ev.pressed then Handled else Ignored)
      ensures outcome == Handled ==>
                selectedWeaponSlot == SlotAfterPress(old(selectedWeaponSlot), ev.buttonIndex)
      ensures outcome != Handled ==> selectedWeaponSlot == old(selectedWeaponSlot)
    {
      if player.None? { return NullPlayerFault; }
      if !player.value.canMove { return Blocked; }
      if inventoryOpen { return Blocked; }
      if ev.MouseButton? && ev.pressed {
        if ev.buttonIndex == ButtonWheelUp {
          selectedWeaponSlot := selectedWeaponSlot + 1;
        }
        if ev.buttonIndex == ButtonWheelDown {
          selectedWeaponSlot := selectedWeaponSlot - 1;
        }
        selectedWeaponSlot := Wrap(selectedWeaponSlot, SlotMin, SlotMax);
        outcome := Handled;
      } else {
        outcome := Ignored;
      }
    }

    /** The per-frame update. With no player, or a player in a cutscene,
        nothing changes. Otherwise the origin takes one follow step; while the
        countdown runs the hint's alpha is faded and the hint is pinned back
        to interactPos; a recompute is requested iff the global position
        moved and an occluder exists; and the memo takes the new position. */
    method UpdateCamera(delta: real, player: Option<PlayerView>, mouse: Vec2, occluderPresent: bool)
      requires Valid()
      modifies this`position, this`hintAlpha, this`hintOffset, this`positionPrevious, this`fovRequests
      ensures Valid()
      ensures player.None? || player.value.inCutscene ==>
                position == old(position) && hintAlpha == old(hintAlpha) && hintOffset == old(hintOffset)
                && positionPrevious == old(positionPrevious) && fovRequests == old(fovRequests)
      ensures player.Some? && !player.value.inCutscene ==>
                position == FollowStep(old(position), player.value.origin, mouse, delta)
      ensures player.Some? && !player.value.inCutscene && timeLeft > 0.0 ==>
                hintAlpha == FadedAlpha(old(hintAlpha), timeLeft, delta) && HintGlobalPosition() == interactPos
      ensures timeLeft == 0.0 ==> hintAlpha == old(hintAlpha) && hintOffset == old(hintOffset)
      ensures player.Some? && !player.value.inCutscene ==>
                positionPrevious == GlobalPosition()
                && fovRequests == old(fovRequests)
                   + (if RecomputeRequested(old(positionPrevious), GlobalPosition(), occluderPresent) then 1 else 0)
    {
      if player.None? { return; }
      if player.value.inCutscene { return; }

      var pos := position;
      var h := Resolution.y / 4.0;
      var anchor := player.value.origin;
      var x := Lerp(pos.x, anchor.x, delta * 4.0);
      x := Lerp(x, mouse.x, delta * 0.4);
      var y := Lerp(pos.y, anchor.y - h, delta * 4.0);
      position := Vec2(x, y);

      if timeLeft > 0.0 {
        if timeLeft > FadeThreshold {
          hintAlpha := Lerp(hintAlpha, timeLeft / HintDuration, delta * 2.0);
        } else {
          hintAlpha := timeLeft / HintDuration;
        }
        hintOffset := Sub(interactPos, GlobalPosition());
      }

      if positionPrevious != GlobalPosition() && occluderPresent {
        fovRequests := fovRequests + 1;
      }
      positionPrevious := GlobalPosition();
    }

    /** Shows the hint: whatever came before, the countdown restarts at its
        full length and the hint becomes visible with the given label, pinned
        at `pos`; the animation is reassigned only when it is not already the
        icon's. */
    method ShowInteractHint(name: string, icon: InteractHintIcon, pos: Vec2)
      requires Valid()
      modifies this`timeLeft, this`hintVisible, this`hintLabel, this`hintAnimation,
               this`animationChanges, this`interactPos, this`hintOffset
      ensures Valid()
      ensures timeLeft == HintDuration && hintVisible && hintLabel == name
      ensures hintAnimation == IconName(icon)
      ensures animationChanges == old(animationChanges) + (if old(hintAnimation) != IconName(icon) then 1 else 0)
      ensures interactPos == pos && HintGlobalPosition() == pos
    {
      timeLeft := HintDuration;
      hintVisible := true;
      hintLabel := name;
      if hintAnimation != IconName(icon) {
        hintAnimation := IconName(icon);
        animationChanges := animationChanges + 1;
      }
      interactPos := pos;
      hintOffset := Sub(interactPos, GlobalPosition());
    }

    /** Hides the hint; calling it again changes nothing more. The source
        spells this handler HideIneractHint. */
    method HideInteractHint()
      modifies this`hintVisible
      ensures !hintVisible
    {
      hintVisible := false;
    }

    /** The hint timer's share of a frame: a running countdown loses `delta`
        seconds, floored at zero, and on reaching zero the timeout hides the
        hint. A stopped countdown changes nothing. */
    method TimerTick(delta: real)
      requires Valid() && delta >= 0.0
      modifies this`timeLeft, this`hintVisible
      ensures Valid()
      ensures old(timeLeft) > 0.0 ==> timeLeft == CountdownAfter(old(timeLeft), delta) && timeLeft <= old(timeLeft)
      ensures old(timeLeft) == 0.0 ==> timeLeft == 0.0
      ensures old(timeLeft) > 0.0 && timeLeft == 0.0 ==> !hintVisible
      ensures !(old(timeLeft) > 0.0 && timeLeft == 0.0) ==> hintVisible == old(hintVisible)
    {
      if timeLeft > 0.0 {
        timeLeft := CountdownAfter(timeLeft, delta);
        if timeLeft == 0.0 {
          HideInteractHint();
        }
      }
    }
  }

  // -----------------------------------------------------------------------
  // Client scenarios: what a caller can conclude from the contracts above.

  /** Showing the hint and letting 0.1 s pass leaves 0.4 s on the countdown,
      which is below the easing threshold, so the next update sets the
      opacity straight to 0.4 / 0.5 and the hint stays visible. */
  method ShowThenShortTick() returns (left: real, alpha: real, visible: bool)
    ensures left == 0.4 && alpha == 0.8 && visible
  {
    var cam := new PlayerCamera(Vec2(0.0, 0.0), Vec2(0.0, 0.0), Vec2(0.0, 0.0), false, "", "");
    cam.ShowInteractHint("Door", Hand, Vec2(10.0, 10.0));
    ShortTickThenUpdate(cam, PlayerView(Vec2(0.0, 0.0), true, false), Vec2(0.0, 0.0));
    left, alpha, visible := cam.timeLeft, cam.hintAlpha, cam.hintVisible;
  }

  /** A visible hint with its full countdown: 0.1 s of timer and one
      0.1 s update leave 0.4 s and set the opacity from the linear branch. */
  method ShortTickThenUpdate(cam: PlayerCamera, player: PlayerView, mouse: Vec2)
    requires cam.Valid() && cam.timeLeft == HintDuration && cam.hintVisible
    requires !player.inCutscene
    modifies cam
    ensures cam.timeLeft == 0.4 && cam.hintAlpha == 0.8 && cam.hintVisible
  {
    cam.TimerTick(0.1);
    cam.UpdateCamera(0.1, Some(player), mouse, false);
  }

  /** A hint just shown, still fully transparent: one update with 50 ms of
      frame time eases its opacity to a tenth; when the countdown then runs
      out the hint is hidden, but its opacity is not reset to zero. */
  method EaseThenExpire(cam: PlayerCamera, player: PlayerView, mouse: Vec2)
    requires cam.Valid() && cam.timeLeft == HintDuration && cam.hintAlpha == 0.0
    requires !player.inCutscene
    modifies cam
    ensures cam.timeLeft == 0.0 && cam.hintAlpha == 0.1 && !cam.hintVisible
  {
    assert FadedAlpha(0.0, HintDuration, 0.05) == 0.1;
    cam.UpdateCamera(0.05, Some(player), mouse, false);
    cam.TimerTick(0.5);
  }

  /** A camera resting above the player, with the mouse on its vertical and
      the memo already holding its position, neither moves nor requests a
      recompute on its next update. */
  method UpdateAtRest(cam: PlayerCamera, anchor: Vec2, mouse: Vec2, delta: real, occluderPresent: bool)
    requires cam.Valid() && cam.positionPrevious == cam.GlobalPosition()
    requires cam.position.x == anchor.x == mouse.x && cam.position.y == FollowTargetY(anchor)
    modifies cam
    ensures cam.position == old(cam.position) && cam.fovRequests == old(cam.fovRequests)
  {
    FollowFixedPoint(cam.position, anchor, mouse, delta);
    cam.UpdateCamera(delta, Some(PlayerView(anchor, true, false)), mouse, occluderPresent);
  }

  /** Two updates in a row with the same player: if the second leaves the
      camera where the first put it, the second requests no recompute, so the
      pair requests at most one. */
  method TwoUpdatesRequestAtMostOnce(cam: PlayerCamera, player: Option<PlayerView>,
                                     delta: real, nextDelta: real, mouse: Vec2, nextMouse: Vec2,
                                     occluderPresent: bool)
    returns (between: Vec2, requestsBetween: nat)
    requires cam.Valid()
    modifies cam
    ensures requestsBetween <= old(cam.fovRequests) + 1
    ensures cam.GlobalPosition() == between ==> cam.fovRequests == requestsBetween
  {
    cam.UpdateCamera(delta, player, mouse, occluderPresent);
    between, requestsBetween := cam.GlobalPosition(), cam.fovRequests;
    cam.UpdateCamera(nextDelta, player, nextMouse, occluderPresent);
  }

  /** From slot 0, wheel-down selects slot 1 (the wrap range is {0, 1}), a
      second wheel-down returns to 0, and a left click leaves the slot alone. */
  method ScrollSequence() returns (afterDown: int, afterDownDown: int, afterClick: int)
    ensures afterDown == 1 && afterDownDown == 0 && afterClick == 0
  {
    var cam := new PlayerCamera(Vec2(0.0, 0.0), Vec2(0.0, 0.0), Vec2(0.0, 0.0), false, "", "");
    var player := Some(PlayerView(Vec2(0.0, 0.0), true, false));
    WheelDownFromFirstWraps();
    var o := cam.Input(player, false, MouseButton(ButtonWheelDown, true));
    afterDown := cam.selectedWeaponSlot;
    WrapIsEuclidean(0, SlotMin, SlotMax);
    o := cam.Input(player, false, MouseButton(ButtonWheelDown, true));
    afterDownDown := cam.selectedWeaponSlot;
    NonWheelPressKeepsSlot(0, 1);
    o := cam.Input(player, false, MouseButton(1, true));
    afterClick := cam.selectedWeaponSlot;
  }
}
