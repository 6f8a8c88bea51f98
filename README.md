# Player camera of a 2D Godot game, modelled in Dafny

`PlayerCamera` is the `Camera2D` node that follows the player. Besides wiring
the scene together it holds four small pieces of logic, and this project
models each one and proves what it guarantees:

- **Weapon-slot selector.** The input handler steps `selectedWeaponSlot` up
  on wheel-up and down on wheel-down, then normalises it with
  `Mathf.Wrap(slot, 0, 2)`. The handler does nothing while the player cannot
  move or the inventory is open.
- **Follow blend.** Each update damps the camera's x toward the player, damps
  that result toward the mouse, and damps y toward a point a quarter of the
  viewport height above the player.
- **Interaction hint.** `ShowInteractHint` starts a 0.5 s countdown, shows
  the hint and pins it to a world position. While the countdown runs, each
  update eases the opacity above 0.45 s and sets it to
  `timeLeft / 0.5` below that, then re-pins the hint. The timer's timeout
  hides the hint.
- **Field-of-view gate.** The field-of-view recompute is requested only when
  the camera's global position differs from the one remembered at the last
  update and an occluder exists. The memo is then overwritten.

Layout:

- `mathf.dfy` (module `Mathf`) holds the engine helpers. `Wrap` is the C#
  integer overload, built on C#'s truncating `%`; it is proved to agree with
  the Euclidean remainder when the range is positive. `Lerp` is the
  unclamped interpolation.
- `camera_logic.dfy` (module `CameraLogic`) holds the rules as pure
  functions: `SlotAfterPress`, `FollowStep`, `FadedAlpha` and
  `RecomputeRequested`, with lemmas about them.
- `player_camera.dfy` (module `Camera`) holds class `PlayerCamera`. Its
  fields are the state the source updates in place, and its methods
  (`modifies` only the fields they assign) tie the new state to those
  functions. A few client methods show what callers can conclude from the
  contracts.

Collaborators become parameters. The player is an `Option<PlayerView>`
carrying its origin, `canMove` and `inCutscene`. The mouse position, the
inventory-open flag and the presence of an occluder are plain arguments.
The engine `Timer` becomes the field `timeLeft` plus the method
`TimerTick(delta)`, which floors the countdown at zero and hides the hint
when it gets there. The field-of-view recompute is counted in `fovRequests`.
The hint is a child node of the camera, so the model stores its offset
from the camera. `HintGlobalPosition()` is therefore the camera's global
position plus that offset, and the hint drifts with the camera between
re-pins, as in the engine.

Three behaviours of the code are easy to misread, and the model keeps them
as the code has them:

- `Mathf.Lerp` in the engine's C# API does not clamp its weight. The model
  does not clamp either: `FadeEasedOvershoots` shows an opacity of 2 after a
  one-second frame, and `FadeEasedPhase` keeps the opacity in [0, 1] only
  for frames of at most 0.5 s.
- `Mathf.Wrap(slot, 0, 2)` excludes its upper bound, so the slots are
  {0, 1}, not {0, 1, 2}. Wheel-down from 0 gives 1.
- When the countdown expires, the hint is hidden but its opacity is not set
  to 0 (`EaseThenExpire`).

## Model

| member | source | states |
|---|---|---|
| `Mathf.TruncRem` | Player/PlayerCamera.cs:87 | C#'s remainder has the dividend's sign and a magnitude below the divisor's |
| `Mathf.TruncRemCompletesQuotient` | Player/PlayerCamera.cs:87 | the remainder is what the quotient truncated toward zero leaves: a == (a / b) * b + a % b, C#'s defining identity |
| `Mathf.Wrap` | Player/PlayerCamera.cs:87 | for a positive range the result lies in [lo, hi), upper bound excluded; for a reversed range it lies in (hi, lo]; an empty range gives lo |
| `Mathf.WrapIsEuclidean` | Player/PlayerCamera.cs:87 | for lo < hi, Wrap built on truncating `%` equals lo + (v - lo) mod (hi - lo), so negative values wrap round rather than clamp |
| `Mathf.WrapIdempotent` | Player/PlayerCamera.cs:87 | a value already in [lo, hi) is left as it is by Wrap |
| `Mathf.WrapOfShiftedWrap` | Player/PlayerCamera.cs:81-87 | wrapping after each step gives the same result as wrapping once after all the steps |
| `Mathf.Lerp` | Player/PlayerCamera.cs:101-103 | the weight is not clamped; weight 0 gives the start, weight 1 the target, and equal endpoints give that value for any weight |
| `Mathf.LerpBetween` | Player/PlayerCamera.cs:101-103 | Lerp gives its endpoints at weights 0 and 1 and stays between them for weights in [0, 1] |
| `CameraLogic.SlotAfterPress` | Player/PlayerCamera.cs:80-87 | after a handled press the slot is in [0, 2), whatever the slot before |
| `CameraLogic.SlotInRange` | Player/PlayerCamera.cs:80-87 | whatever the old slot, the slot after a handled press lies in [0, 2), and it is the wrap of the old slot plus the wheel step |
| `CameraLogic.WheelDownFromFirstWraps` | Player/PlayerCamera.cs:84-87 | wheel-down from slot 0 selects the last slot, 1, instead of clamping |
| `CameraLogic.NonWheelPressKeepsSlot` | Player/PlayerCamera.cs:80-87 | a pressed button that is not a wheel re-wraps an in-range slot to itself |
| `CameraLogic.WheelUpThenDownRestores` | Player/PlayerCamera.cs:81-87 | wheel-up followed by wheel-down returns to the starting slot |
| `CameraLogic.SlotAfterPressesIsNetWrap` | Player/PlayerCamera.cs:77-89 | after any run of handled presses from an in-range slot, the slot is the wrap of the start plus the net wheel count, and it stays in range |
| `CameraLogic.FollowStep` | Player/PlayerCamera.cs:98-103 | a zero-length frame leaves the origin where it is; at 4·delta = 1 the new y is exactly the look-ahead point player.y - 180/4 |
| `CameraLogic.FollowYIgnoresMouse` | Player/PlayerCamera.cs:98-103 | the new y is unchanged when the mouse, the old x or the player's x change; only the old y, the player's y, h and delta matter |
| `CameraLogic.FollowYApproachesTarget` | Player/PlayerCamera.cs:98-103 | the y error to player.y - 180/4 is scaled by 1 - 4·delta each step; for weights in [0, 1] y moves toward the target without passing it, and at weight 1 it lands on it |
| `CameraLogic.FollowXBlendsSequentially` | Player/PlayerCamera.cs:101-102 | the mouse blend acts on the player-blended x: at 4·delta = 1 the result is player.x + 0.1·(mouse.x - player.x), whatever the old x |
| `CameraLogic.FollowFixedPoint` | Player/PlayerCamera.cs:101-103 | a camera on the player's vertical, at the look-ahead height, with the mouse on the same vertical, does not move for any delta |
| `CameraLogic.FadedAlpha` | Player/PlayerCamera.cs:109-115 | at or below 0.45 s left the opacity is in (0, 0.9]; above it a zero-length frame keeps the opacity and a frame with 2·delta = 1 lands on timeLeft / 0.5 |
| `CameraLogic.FadeLinearPhase` | Player/PlayerCamera.cs:109-116 | for 0 < timeLeft <= 0.45 the opacity becomes exactly timeLeft / 0.5, whatever the old opacity and delta, so it lies in (0, 0.9] |
| `CameraLogic.FadeEasedPhase` | Player/PlayerCamera.cs:111-112 | for 0.45 < timeLeft <= 0.5 and delta <= 0.5, the opacity moves toward a target in (0.9, 1] without passing it and stays in [0, 1] |
| `CameraLogic.FadeEasedOvershoots` | Player/PlayerCamera.cs:112 | with the unclamped weight, a one-second frame right after showing drives the opacity from 0 to 2 |
| `CameraLogic.RecomputeRequested` | Player/PlayerCamera.cs:120 | a recompute is requested only with an occluder and only when the position differs from the memo; with an occluder, any difference in x or y requests one |
| `CameraLogic.IconNameInjective` | Player/PlayerCamera.cs:136-137 | distinct icons have distinct names (`icon.ToString()`), so the animation is compared and reassigned by icon |
| `CameraLogic.GateFiresAtMostOnce` | Player/PlayerCamera.cs:120-123 | once the memo holds the current position, no recompute is requested at that position; without an occluder none is ever requested |
| `CameraLogic.StationaryCameraRequestsNothing` | Player/PlayerCamera.cs:101-123 | a camera at the follow fixed point whose memo holds its position requests no recompute on its next step |
| `Camera.CountdownAfter` | Player/PlayerCamera.cs:109-111 | the timer's time left after delta seconds is never negative and never grows; it reaches zero exactly when delta covers what was left, and otherwise it lost exactly delta |
| `Camera.PlayerCamera.GlobalPosition` | Player/PlayerCamera.cs:120-123 | the global position is the origin carried by the parent's translation, and the origin is recovered from it |
| `Camera.PlayerCamera.HintGlobalPosition` | Player/PlayerCamera.cs:140 | the hint's global position is the camera's plus the hint's offset, so pinning it fixes the offset |
| `Camera.PlayerCamera.constructor` | Player/PlayerCamera.cs:24-54 | the ready state: slot 0, memo at the origin, hint opacity 0, countdown stopped, no recompute requested |
| `Camera.PlayerCamera.Input` | Player/PlayerCamera.cs:77-89 | a missing player is a fault; a player that cannot move, or an open inventory, blocks the event; only a pressed mouse button changes the slot, to SlotAfterPress; no other field changes and the slot stays in [0, 2) |
| `Camera.PlayerCamera.UpdateCamera` | Player/PlayerCamera.cs:91-124 | with no player or during a cutscene nothing changes; otherwise the origin takes FollowStep, a running countdown sets the opacity to FadedAlpha and re-pins the hint at interactPos, a stopped countdown leaves opacity and hint alone, the request count grows by one exactly when the global position moved and an occluder exists, and the memo becomes the global position |
| `Camera.PlayerCamera.ShowInteractHint` | Player/PlayerCamera.cs:130-141 | whatever the state before, the countdown restarts at 0.5, the hint is visible with the new label and pinned at pos; the animation is the icon's, and it is reassigned only when it differs |
| `Camera.PlayerCamera.HideInteractHint` | Player/PlayerCamera.cs:143-145 | the hint is hidden and nothing else changes, so calling it twice is harmless |
| `Camera.PlayerCamera.TimerTick` | Player/PlayerCamera.cs:46-50 | a running countdown loses delta seconds, floored at zero; reaching zero fires the timeout that hides the hint; a stopped countdown changes nothing |
| `Camera.ShowThenShortTick` | Player/PlayerCamera.cs:109-116 | showing the hint, then 0.1 s of countdown and one update, leaves 0.4 s, opacity 0.8 from the linear branch, and a visible hint |
| `Camera.ShortTickThenUpdate` | Player/PlayerCamera.cs:109-116 | for a visible hint with its full 0.5 s, a 0.1 s tick and a 0.1 s update leave 0.4 s and opacity 0.8, and the hint stays visible |
| `Camera.EaseThenExpire` | Player/PlayerCamera.cs:109-118 | one eased 50 ms update takes a fresh hint's opacity from 0 to 0.1; after expiry the hint is hidden with that opacity kept |
| `Camera.UpdateAtRest` | Player/PlayerCamera.cs:120-123 | an update of a camera at rest whose memo holds its position neither moves it nor requests a recompute |
| `Camera.TwoUpdatesRequestAtMostOnce` | Player/PlayerCamera.cs:120-123 | of two updates in a row, the first requests at most one recompute, and the second requests none when it leaves the global position where the first put it |
| `Camera.ScrollSequence` | Player/PlayerCamera.cs:77-89 | from slot 0, wheel-down selects 1, a second wheel-down selects 0, and a left click keeps 0 |

## Left out

- `_Ready` (Player/PlayerCamera.cs:38-68) is scene-tree lookup and signal wiring. Only its effect on state is modelled, by the constructor: opacity 0 at line 54, with the defaults of lines 24 and 32. The timeout connection at line 50 is the call inside `TimerTick`.
- `_Process` and `gui.GetWeapon` are left out. So are `PickFloorItem`, `GetCanMove`, `GetItemByID`, `RemoveItem`, `GetGUIVisible`, `GetUsableItem` and `UseUsableItem`. Each forwards to the GUI or player class, or reads a field of it, and those classes are not part of this model.
- `IsCursorOnInventory` (Player/PlayerCamera.cs:147-149) is left out. It returns the constant false, because its forward to the inventory GUI is commented out at line 148.
- `GetPlayer` (Player/PlayerCamera.cs:186-188) is left out. It only returns the camera's player reference, which the model takes as the `player` parameter.
- `IsInventoryOpen` (GUI visibility) becomes the `inventoryOpen` parameter of `Input`.
- `SetGUIVisible` is left out. It only toggles nodes and plays a sound.
- `ForceUpdateScroll` is left out. It is an engine redraw request.
- `GetGlobalMousePosition` becomes the `mouse` parameter.
- The body of `playerFOV.Update` is geometry outside this file. Only the request is modelled, as the `fovRequests` count.
- Positions, delta and opacity are `real`. IEEE single-precision rounding is not modelled, so no claim is bit-exact.
- C#'s 32-bit `int` is modelled as an unbounded integer. The slot is in {0, 1} before each step, so overflow cannot occur.
- The label's `Hide()`/`Show()` flicker is left out. So is the sprite's animation playback: reassigning the animation is recorded only as `animationChanges`.
- The camera's parent is taken to translate only, and never to move: `parentOrigin` is a constant. In the engine a moving parent changes the camera's global position even when the camera's own origin stays put. That would request a recompute at lines 120-123, and the model cannot represent it. Rotation and scale of the parent or the camera are not modelled.
- The hint timer is taken to be one-shot. The engine emits the timeout only once the remaining time goes below zero, and reports zero from then on. The model hides the hint as soon as the floored countdown reaches zero. These differ only when a frame lands exactly on zero.
- The engine can run the timer and `UpdateCamera` in either order within a frame. The model keeps them as separate calls and leaves the order to the caller.
- The camera's own `Visible = true` at line 39 is rendering only.
- `CameraLogic.FollowYApproachesTarget`: only one-step contraction is proved, and only for y. Convergence of the combined x blend over many updates is not proved.
