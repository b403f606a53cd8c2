/** Input-state snapshots of an emulated game pad and the two edits applied to a
    snapshot before it is published: setting or clearing button bits, and storing an
    analog sample (with the L2/R2 trigger latch derived from it). */
module PadState {

  /** C++ `int`: 32-bit signed. */
  type int32 = x: int | -0x8000_0000 <= x < 0x8000_0000

  /** C++ `u64`, the process time a snapshot is stamped with. */
  type uint64 = x: int | 0 <= x < 0x1_0000_0000_0000_0000

  /** The analog axes of a pad, in the order of their slots in `State.axes`. */
  datatype Axis = LeftX | LeftY | RightX | RightY | TriggerLeft | TriggerRight

  const AXIS_COUNT: nat := 6

  /** The slot of an axis in `State.axes` (the enum's integer value). */
  function AxisIndex(axis: Axis): (i: nat)
    ensures i < AXIS_COUNT
  {
    match axis
    case LeftX => 0
    case LeftY => 1
    case RightX => 2
    case RightY => 3
    case TriggerLeft => 4
    case TriggerRight => 5
  }

  type Axes = s: seq<int32> | |s| == AXIS_COUNT witness [128, 128, 128, 128, 0, 0]

  /** A bit position of the 32-bit button word. */
  type ButtonBit = b: nat | b < 32

  /** A 32-bit button word (`u32`), represented by the set of its 1-bits: `|` is set
      union and `& ~` is set difference. */
  type Buttons = set<ButtonBit>

  /** One snapshot of the pad: the held digital buttons, a time stamp and the raw axes. */
  datatype State = State(buttonsState: Buttons, time: uint64, axes: Axes)

  /** A default-constructed `State`: no button held, sticks centred, triggers released. */
  const DEFAULT_STATE: State := State({}, 0, [128, 128, 128, 128, 0, 0])

  /** The digital buttons derived from the analog triggers: 0x100 and 0x200. */
  const BUTTON_L2: ButtonBit := 8
  const BUTTON_R2: ButtonBit := 9

  /** Hysteresis thresholds on the 0..255 trigger scale. */
  const ON_THRESHOLD: int := 31
  const OFF_THRESHOLD: int := 16

  /** The button word after pressing (setting) or releasing (clearing) the bits of `mask`. */
  function WithButton(buttons: Buttons, mask: Buttons, pressed: bool): (r: Buttons)
    ensures forall b: ButtonBit :: b in r <==> if b in mask then pressed else b in buttons
  {
    if pressed then buttons + mask else buttons - mask
  }

  /** The trigger latch: whether the derived digital button is held after a sample
      `value`, given whether it was held before. */
  function TriggerLatch(held: bool, value: int): (on: bool)
    ensures value > ON_THRESHOLD ==> on
    ensures value < OFF_THRESHOLD ==> !on
    ensures OFF_THRESHOLD <= value <= ON_THRESHOLD ==> on == held
  {
    if value > ON_THRESHOLD then true
    else if value < OFF_THRESHOLD then false
    else held
  }

  /** The button word after a trigger sample `value` on the digital button `bit`. */
  function LatchButton(buttons: Buttons, bit: ButtonBit, value: int): (r: Buttons)
    ensures r - {bit} == buttons - {bit}
    ensures bit in r <==> TriggerLatch(bit in buttons, value)
  {
    if value > ON_THRESHOLD then WithButton(buttons, {bit}, true)
    else if value < OFF_THRESHOLD then WithButton(buttons, {bit}, false)
    else buttons
  }

  /** The button word after an analog sample `value` on `axis`: only the two trigger
      axes drive a digital button. */
  function TriggerButtons(axis: Axis, value: int, buttons: Buttons): (r: Buttons)
    ensures axis != TriggerLeft && axis != TriggerRight ==> r == buttons
    ensures axis == TriggerLeft ==>
      r - {BUTTON_L2} == buttons - {BUTTON_L2} &&
      (BUTTON_L2 in r <==> TriggerLatch(BUTTON_L2 in buttons, value))
    ensures axis == TriggerRight ==>
      r - {BUTTON_R2} == buttons - {BUTTON_R2} &&
      (BUTTON_R2 in r <==> TriggerLatch(BUTTON_R2 in buttons, value))
  {
    match axis
    case TriggerLeft => LatchButton(buttons, BUTTON_L2, value)
    case TriggerRight => LatchButton(buttons, BUTTON_R2, value)
    case _ => buttons
  }

  /** The snapshot a button event publishes: the previous one, stamped with `time`, with
      the bits of `mask` set when pressed and cleared when released. */
  function ButtonSample(s: State, mask: Buttons, pressed: bool, time: uint64): (r: State)
    ensures r.time == time && r.axes == s.axes
    ensures forall b: ButtonBit :: b in r.buttonsState <==> if b in mask then pressed else b in s.buttonsState
  {
    State(WithButton(s.buttonsState, mask, pressed), time, s.axes)
  }

  /** The snapshot an analog event publishes: the previous one, stamped with `time`, with
      `value` stored on `axis` and the trigger button of a trigger axis latched. */
  function AxisSample(s: State, axis: Axis, value: int32, time: uint64): (r: State)
    ensures r.time == time
    ensures r.axes[AxisIndex(axis)] == value
    ensures forall i :: 0 <= i < AXIS_COUNT && i != AxisIndex(axis) ==> r.axes[i] == s.axes[i]
    ensures axis != TriggerLeft && axis != TriggerRight ==> r.buttonsState == s.buttonsState
    ensures axis == TriggerLeft ==>
      r.buttonsState - {BUTTON_L2} == s.buttonsState - {BUTTON_L2} &&
      (BUTTON_L2 in r.buttonsState <==> TriggerLatch(BUTTON_L2 in s.buttonsState, value))
    ensures axis == TriggerRight ==>
      r.buttonsState - {BUTTON_R2} == s.buttonsState - {BUTTON_R2} &&
      (BUTTON_R2 in r.buttonsState <==> TriggerLatch(BUTTON_R2 in s.buttonsState, value))
  {
    State(TriggerButtons(axis, value, s.buttonsState), time, s.axes[AxisIndex(axis) := value])
  }
}
