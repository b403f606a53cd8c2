/** The trigger latch over a run of samples: the digital button a trigger drives is
    decided by the most recent sample outside the hysteresis band, and noise narrower
    than the band cannot make it flicker. */
module Hysteresis {
  import opened PadState

  /** A sample that decides the latch on its own (outside the band OFF..ON). */
  predicate Decisive(value: int)
  {
    value > ON_THRESHOLD || value < OFF_THRESHOLD
  }

  /** The latch after feeding `samples` in order to a latch holding `held`. */
  function LatchAfter(held: bool, samples: seq<int>): bool
    decreases |samples|
  {
    if samples == [] then held
    else TriggerLatch(LatchAfter(held, samples[..|samples| - 1]), samples[|samples| - 1])
  }

  /** The number of times the latch changes while `samples` are fed to it. */
  function Flips(held: bool, samples: seq<int>): nat
    decreases |samples|
  {
    if samples == [] then 0
    else
      var before := LatchAfter(held, samples[..|samples| - 1]);
      Flips(held, samples[..|samples| - 1])
        + (if TriggerLatch(before, samples[|samples| - 1]) != before then 1 else 0)
  }

  datatype Option = None | Some(value: int)

  /** The most recent decisive sample, if any. */
  function LastDecisive(samples: seq<int>): (r: Option)
    decreases |samples|
  {
    if samples == [] then None
    else if Decisive(samples[|samples| - 1]) then Some(samples[|samples| - 1])
    else LastDecisive(samples[..|samples| - 1])
  }

  /** The latch remembers nothing but the last decisive sample: it is on exactly when
      that sample was above ON, and keeps its initial value when there was none. */
  lemma {:induction false} LatchFollowsLastDecisive(held: bool, samples: seq<int>)
    ensures LatchAfter(held, samples) == match LastDecisive(samples)
      case None => held
      case Some(v) => v > ON_THRESHOLD
    decreases |samples|
  {
    if samples != [] {
      LatchFollowsLastDecisive(held, samples[..|samples| - 1]);
    }
  }

  /** With no sample below OFF, the latch can only turn on, and at most once. */
  lemma {:induction false} NoLowSampleRisesOnce(held: bool, samples: seq<int>)
    requires forall i :: 0 <= i < |samples| ==> samples[i] >= OFF_THRESHOLD
    ensures (Flips(held, samples) == 0 && LatchAfter(held, samples) == held)
         || (Flips(held, samples) == 1 && !held && LatchAfter(held, samples))
    decreases |samples|
  {
    if samples != [] {
      NoLowSampleRisesOnce(held, samples[..|samples| - 1]);
    }
  }

  /** With no sample above ON, the latch can only turn off, and at most once. */
  lemma {:induction false} NoHighSampleFallsOnce(held: bool, samples: seq<int>)
    requires forall i :: 0 <= i < |samples| ==> samples[i] <= ON_THRESHOLD
    ensures (Flips(held, samples) == 0 && LatchAfter(held, samples) == held)
         || (Flips(held, samples) == 1 && held && !LatchAfter(held, samples))
    decreases |samples|
  {
    if samples != [] {
      NoHighSampleFallsOnce(held, samples[..|samples| - 1]);
    }
  }

  /** No flicker: samples that stay within a window 16 wide (noise of amplitude up to
      the gap between the thresholds, whatever its level) change the latch at most once. */
  lemma NarrowNoiseFlipsAtMostOnce(held: bool, samples: seq<int>, low: int)
    requires forall i :: 0 <= i < |samples| ==> low <= samples[i] <= low + ON_THRESHOLD - OFF_THRESHOLD + 1
    ensures Flips(held, samples) <= 1
  {
    if low >= OFF_THRESHOLD {
      NoLowSampleRisesOnce(held, samples);
    } else {
      NoHighSampleFallsOnce(held, samples);
    }
  }

  /** The button word after feeding `samples` on `axis` in order. */
  function ButtonsAfter(axis: Axis, buttons: Buttons, samples: seq<int>): Buttons
    decreases |samples|
  {
    if samples == [] then buttons
    else TriggerButtons(axis, samples[|samples| - 1], ButtonsAfter(axis, buttons, samples[..|samples| - 1]))
  }

  /** Over a run of samples, a trigger axis drives exactly its own button through the
      latch and leaves every other bit alone; any other axis leaves the word alone. */
  lemma {:induction false} ButtonsFollowLatch(axis: Axis, buttons: Buttons, samples: seq<int>)
    ensures axis != TriggerLeft && axis != TriggerRight ==> ButtonsAfter(axis, buttons, samples) == buttons
    ensures axis == TriggerLeft || axis == TriggerRight ==>
      var bit := if axis == TriggerLeft then BUTTON_L2 else BUTTON_R2;
      ButtonsAfter(axis, buttons, samples) - {bit} == buttons - {bit} &&
      (bit in ButtonsAfter(axis, buttons, samples) <==> LatchAfter(bit in buttons, samples))
    decreases |samples|
  {
    if samples != [] {
      ButtonsFollowLatch(axis, buttons, samples[..|samples| - 1]);
    }
  }

  /** The trigger example: samples 0, 20, 32, 17, 15 from released turn the button on at
      32 (not at 20) and off again only at 15 (not at 17). */
  lemma TriggerExample()
    ensures LatchAfter(false, [0, 20]) == false
    ensures LatchAfter(false, [0, 20, 32]) == true
    ensures LatchAfter(false, [0, 20, 32, 17]) == true
    ensures LatchAfter(false, [0, 20, 32, 17, 15]) == false
    ensures Flips(false, [0, 20, 32, 17, 15]) == 2
  {
    assert [0, 20, 32, 17, 15][..4] == [0, 20, 32, 17];
    assert [0, 20, 32, 17][..3] == [0, 20, 32];
    assert [0, 20, 32][..2] == [0, 20];
    assert [0, 20][..1] == [0];
    assert [0][..0] == [];
  }
}
