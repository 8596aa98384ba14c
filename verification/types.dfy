/**
 * Values declared by MacrosOnTheFly.h, and the few Kaleidoscope host notions
 * (key codes, key positions, key_state bits) that the plugin works with.
 */
module MacroTypes {

  datatype Option<T> = None | Some(value: T)

  /** A key code: the 16-bit `raw` field of a Kaleidoscope `Key`. */
  type Key = k: int | 0 <= k < 0x1_0000

  /** `Key_NoKey`, the value an event handler returns to consume an event. */
  const NoKey: Key := 0

  type Byte = b: int | 0 <= b < 0x100

  /** A physical key position. */
  datatype Pos = Pos(row: Byte, col: Byte)

  /** The position `(255, 255)` written into a slot header that belongs to no key. */
  const Unassigned: Pos := Pos(255, 255)

  /**
   * The bits of a Kaleidoscope `key_state`: IS_PRESSED (pressed in this scan),
   * WAS_PRESSED (pressed in the previous scan) and INJECTED (synthesized, not
   * from the matrix).
   */
  datatype KeyState = KeyState(isPressed: bool, wasPressed: bool, injected: bool)

  predicate ToggledOn(ks: KeyState) { ks.isPressed && !ks.wasPressed }
  predicate ToggledOff(ks: KeyState) { !ks.isPressed && ks.wasPressed }

  /**
   * The `state` byte of a stored entry, as its two meaningful bits:
   * DOWN is IS_PRESSED and UP is WAS_PRESSED.
   */
  datatype Stroke = Stroke(down: bool, up: bool)

  const Down: Stroke := Stroke(true, false)
  const Up: Stroke := Stroke(false, true)
  /** TAP is `UP | DOWN`: one entry standing for a press followed by a release. */
  const Tap: Stroke := Stroke(Down.down || Up.down, Down.up || Up.up)

  /** `key_state & TAP`: keeps the two pressed bits and drops every other flag. */
  function StrokeOf(ks: KeyState): (s: Stroke)
    ensures ToggledOn(ks) ==> s == Down
    ensures ToggledOff(ks) ==> s == Up
    ensures IsStroke(s) <==> ks.isPressed || ks.wasPressed
  {
    Stroke(ks.isPressed, ks.wasPressed)
  }

  /** An entry's state is one of UP, DOWN or TAP. */
  predicate IsStroke(s: Stroke) { s == Up || s == Down || s == Tap }

  /** One stored keystroke. */
  datatype Entry = Entry(key: Key, stroke: Stroke)

  /** The controller's slot-picking state. */
  datatype State = Idle | PickingSlotForRec | PickingSlotForPlay

  /** One thing that playback hands to the host: an injected press or release, or a report flush. */
  datatype TraceItem = Press(key: Key) | Release(key: Key) | SendReport
}
