# Game controller input history (shadPS4 `Input::GameController`)

This project models the input-state history of the emulator's `GameController`
(`src/input/controller.cpp`). The input backend publishes pad snapshots (`State`:
held buttons, a time stamp, six raw axes) into a fixed-capacity ring buffer, and the
emulated pad library reads them back.

- `AddState` publishes a snapshot. On a full ring it first evicts the oldest one.
- `GetLastState` and `ReadState` peek at the newest snapshot.
- `ReadStates` drains, oldest first, up to a budget of snapshots that no earlier drain
  has handed out. It marks each one it hands out as obtained.
- `CheckButton` publishes the newest snapshot with button bits set or cleared.
- `Axis` publishes the newest snapshot with a raw axis value stored. For the two
  trigger axes it also derives the L2/R2 digital button with hysteresis: on above 31,
  off below 16, unchanged in between.

The project has four modules:

- `PadState` (`pad_state.dfy`): the snapshot, the button word, and the pure edits
  `CheckButton` and `Axis` apply before publishing.
- `Hysteresis` (`hysteresis.dfy`): what the trigger latch does over a whole run of
  samples.
- `StateHistory` (`history.dfy`): the history window as a value. It is the
  oldest-to-newest sequence of retained snapshots with their obtained flags.
  `Publish` and `Drain` are its two operations. The lemmas state bounded retention,
  eviction order, FIFO hand-out and at-most-once delivery.
- `Controller` (`controller.dfy`): the class `GameController` over two arrays, the
  snapshots and the obtained flags, with the oldest index and the count as fields.
  Each method is proved against `StateHistory`: its `Entries()` view after the call
  is `Publish` or `Drain` of the view before.

## Model

| member | source | states |
|---|---|---|
| PadState.WithButton | src/input/controller.cpp:84-88 | pressing sets exactly the bits of the mask, releasing clears exactly them; every other bit keeps its value |
| PadState.TriggerLatch | src/input/controller.cpp:108-120 | the hysteresis rule: above ON (31) the button is on, below OFF (16) it is off, in between it keeps its previous value |
| PadState.LatchButton | src/input/controller.cpp:112-119 | a trigger sample changes only its own button bit, and that bit follows the latch rule |
| PadState.TriggerButtons | src/input/controller.cpp:111-131 | TriggerLeft drives only L2 and TriggerRight only R2, each by the latch rule; any other axis leaves the button word unchanged |
| PadState.ButtonSample | src/input/controller.cpp:82-88 | the snapshot a button event publishes: stamped with the event time, axes unchanged, mask bits set or cleared, other bits kept |
| PadState.AxisSample | src/input/controller.cpp:95-131 | the snapshot an analog event publishes: stamped with the event time, the value stored on its axis, the other axes unchanged, buttons per the trigger rule |
| Hysteresis.LatchFollowsLastDecisive | src/input/controller.cpp:111-131 | after any run of samples the trigger button is on exactly when the last sample outside 16..31 was above 31; with no such sample it keeps its initial value |
| Hysteresis.NoLowSampleRisesOnce | src/input/controller.cpp:111-131 | with no sample below 16 the button can only turn on, and at most once |
| Hysteresis.NoHighSampleFallsOnce | src/input/controller.cpp:111-131 | with no sample above 31 the button can only turn off, and at most once |
| Hysteresis.NarrowNoiseFlipsAtMostOnce | src/input/controller.cpp:108-131 | samples confined to any window of width 16 change the trigger button at most once, so drifting noise does not make it flicker |
| Hysteresis.ButtonsFollowLatch | src/input/controller.cpp:111-131 | over a run of samples on one axis, a trigger axis changes only its own button, which equals the latch over the run; other axes change no button |
| Hysteresis.TriggerExample | src/input/controller.cpp:108-120 | samples 0, 20, 32, 17, 15 from released: on at 32 (not 20), off at 15 (not 17), two changes |
| StateHistory.Publish | src/input/controller.cpp:66-78 | after publishing, the window holds between 1 and MAX_STATES entries and its newest entry is the new snapshot, not obtained |
| StateHistory.PublishKeepsNewest | src/input/controller.cpp:67-77 | publishing keeps the newest MAX_STATES entries of old window plus new snapshot: when full, exactly the oldest is evicted and the rest keep their order |
| StateHistory.PublishAllKeepsNewest | src/input/controller.cpp:66-78 | after any number of publishes, the window is exactly the newest MAX_STATES entries of everything published, in publish order |
| StateHistory.PublishPending | src/input/controller.cpp:67-77 | the new snapshot becomes the last pending one; the pending queue otherwise loses only the evicted oldest entry, and only if it was never obtained |
| StateHistory.Drain | src/input/controller.cpp:39-49 | a drain keeps the window's length |
| StateHistory.DrainWithinBudget | src/input/controller.cpp:39-42 | a drain hands out at most its budget (none for a budget of zero or less) and at most as many snapshots as the window holds |
| StateHistory.DrainTakesOldestPending | src/input/controller.cpp:39-49 | a drain hands out the oldest not-yet-obtained snapshots, in order, as many as the budget allows |
| StateHistory.DrainLeavesRestPending | src/input/controller.cpp:39-49 | after a drain, exactly the snapshots it did not hand out are still pending, in order |
| StateHistory.DrainOnlyMarks | src/input/controller.cpp:44-47 | a drain changes no snapshot and clears no obtained flag |
| StateHistory.DrainStep | src/input/controller.cpp:43-47 | one loop step: an obtained entry is skipped; an unobtained one is handed out and marked |
| StateHistory.DrainTwice | src/input/controller.cpp:39-49 | two drains in a row hand out consecutive, disjoint runs of the pending queue, so nothing is delivered twice |
| StateHistory.DrainAllThenNothing | src/input/controller.cpp:39-49 | after a drain whose budget covers everything pending, the next drain hands out nothing |
| StateHistory.PublishThenDrain | src/input/controller.cpp:25-78 | from an empty window, publishing a sequence and then draining hands out the oldest survivors of eviction, in publish order, up to the budget |
| Controller.Slot | src/input/controller.cpp:43 | a ring index `(first + i) % MAX_STATES` is a valid array slot |
| Controller.ViewMark | src/input/controller.cpp:43-45 | setting the obtained flag of position i's slot marks exactly entry i of the window |
| Controller.ViewAppend | src/input/controller.cpp:72-76 | writing the slot past the newest entry of a non-full ring appends one unobtained entry |
| Controller.ViewRotate | src/input/controller.cpp:67-76 | on a full ring, advancing the start and overwriting the old oldest slot drops the oldest entry and appends the new one |
| Controller.DrainWalkStep | src/input/controller.cpp:39-49 | each iteration of the array loop keeps the walk in step with the drain of the window and leaves later slots untouched |
| Controller.DrainWalkDone | src/input/controller.cpp:39-49 | when the loop ends, by exhaustion or a spent budget, it has handed out the whole drain and left slots past the window alone |
| Controller.GameController.constructor | src/input/controller.cpp:12-15 | a new controller retains nothing, and its newest snapshot is the default one |
| Controller.GameController.GetLastState | src/input/controller.cpp:56-64 | the newest retained snapshot is the last published one, and with nothing retained the last published one is returned |
| Controller.GameController.ReadState | src/input/controller.cpp:17-23 | returns the newest snapshot (the newest entry of the window when one is retained) and the connection fields, changing nothing |
| Controller.GameController.AddState | src/input/controller.cpp:66-78 | the window becomes Publish of the old one; the count stays in 1..MAX_STATES; when full the start advances by one; exactly one slot is written and its flag cleared |
| Controller.GameController.CheckButton | src/input/controller.cpp:80-91 | publishes the newest snapshot edited by ButtonSample with the event time |
| Controller.GameController.Axis | src/input/controller.cpp:93-134 | publishes the newest snapshot edited by AxisSample with the event time |
| Controller.GameController.ReadStates | src/input/controller.cpp:25-54 | disconnected: hands out nothing and changes no flag; connected and empty: hands out the last published snapshot; otherwise hands out and marks exactly what Drain does, within the budget, leaving slots outside the window alone |
| Controller.GameController.TakePending | src/input/controller.cpp:39-49 | the array loop over the ring computes exactly Drain of the window: what it hands out and the flags it leaves |

## Left out

- SDL device calls `SetLightBarRGB`, `SetVibration` and `TryOpenSDLController`
  (src/input/controller.cpp:136-159) are not modelled: they are foreign library I/O,
  and `SetVibration` also does floating-point scaling.
- The mutex (`std::scoped_lock` on `m_mutex`) is not modelled. Every method is treated
  as one atomic, sequential step.
- `LOG_TRACE` calls are diagnostics only and are omitted.
- `sceKernelGetProcessTime` is an external clock. The time stamp is a parameter of
  `CheckButton` and `Axis`.
- The unused `int id` parameter of `CheckButton` and `Axis` is dropped.
- How `m_connected` and `m_connected_count` are set is not part of this model. They
  are plain fields whose initial values the constructor takes as parameters.
- `src/input/controller.h` and `src/core/libraries/pad/pad.h` are not part of this
  model. Their constants are taken as follows:
  - `MAX_STATES` = 64;
  - L2 = 0x100 and R2 = 0x200;
  - the axis order LeftX, LeftY, RightX, RightY, TriggerLeft, TriggerRight;
  - a default `State` has no buttons, time 0, sticks at 128 and triggers at 0;
  - `m_first_state` starts at 0, and the slots start unobtained.
- PadState.Buttons: the `u32` button word is the set of its 1-bit positions (0..31).
  `|=` is union and `&= ~` is set difference. No integer encoding is modelled.
- Controller.GameController.ReadStates: the caller's output array becomes a returned
  sequence, and `ret_num` is its length. Writes past the caller's array are not
  modelled.
- Controller.GameController.ReadStates: as written in the source, a connected
  controller with nothing retained hands out one snapshot even when the budget is zero
  or negative. The model keeps this behaviour.
- PadState.uint64: time stamps are copied, never computed, so no wrap-around arises.
