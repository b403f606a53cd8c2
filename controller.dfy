/** The game controller: a fixed-capacity ring of published snapshots over two arrays
    (the snapshots and their "obtained" flags), the index of the oldest one, their
    count, the last published snapshot and the connection fields. Every method is one
    atomic step; the lock that makes it so is not modelled. */
module Controller {
  import opened PadState
  import opened StateHistory

  /** The array slot of the `i`-th oldest retained snapshot. */
  function Slot(first: nat, i: nat): (j: nat)
    ensures j < MAX_STATES
  {
    (first + i) % MAX_STATES
  }

  lemma SlotInjective(first: nat, i: nat, k: nat)
    requires i < MAX_STATES && k < MAX_STATES && i != k
    ensures Slot(first, i) != Slot(first, k)
  {
  }

  /** Starting one slot later is the same as looking one position further. */
  lemma SlotShift(first: nat, k: nat)
    ensures Slot(Slot(first, 1), k) == Slot(first, k + 1)
  {
  }

  /** The retained entries of a ring: the `n` slots from `first` on, in order, each with
      the snapshot and the obtained flag stored there. */
  ghost function View<T>(slots: seq<T>, flags: seq<bool>, first: nat, n: nat): (v: seq<Entry<T>>)
    requires |slots| == MAX_STATES && |flags| == MAX_STATES
    ensures |v| == n
  {
    seq(n, i requires 0 <= i < n => Entry(slots[Slot(first, i)], flags[Slot(first, i)]))
  }

  lemma ViewPrefix<T>(slots: seq<T>, flags: seq<bool>, first: nat, n: nat, m: nat)
    requires |slots| == MAX_STATES && |flags| == MAX_STATES && n <= m
    ensures View(slots, flags, first, n) == View(slots, flags, first, m)[..n]
  {
  }

  /** Marking the slot of position `i` obtained marks exactly that entry of the view. */
  lemma ViewMark<T>(slots: seq<T>, flags: seq<bool>, first: nat, n: nat, i: nat)
    requires |slots| == MAX_STATES && |flags| == MAX_STATES && i < n <= MAX_STATES
    ensures View(slots, flags[Slot(first, i) := true], first, n)
         == View(slots, flags, first, n)[i := Entry(slots[Slot(first, i)], true)]
  {
    forall k | 0 <= k < n && k != i
      ensures Slot(first, k) != Slot(first, i)
    {
      SlotInjective(first, k, i);
    }
  }

  /** Writing a snapshot into the free slot past the newest one appends it. */
  lemma ViewAppend<T>(slots: seq<T>, flags: seq<bool>, first: nat, n: nat, s: T)
    requires |slots| == MAX_STATES && |flags| == MAX_STATES && n < MAX_STATES
    ensures var slot := Slot(first, n);
      View(slots[slot := s], flags[slot := false], first, n + 1)
        == View(slots, flags, first, n) + [Entry(s, false)]
  {
    var slot := Slot(first, n);
    var v := View(slots, flags, first, n);
    var v' := View(slots[slot := s], flags[slot := false], first, n + 1);
    forall k | 0 <= k < n
      ensures v'[k] == v[k]
    {
      SlotInjective(first, k, n);
    }
  }

  /** On a full ring, overwriting the oldest slot and starting one slot later drops the
      oldest entry and appends the new one. */
  lemma ViewRotate<T>(slots: seq<T>, flags: seq<bool>, first: nat, s: T)
    requires |slots| == MAX_STATES && |flags| == MAX_STATES
    ensures var slot := Slot(first, MAX_STATES);
      View(slots[slot := s], flags[slot := false], Slot(first, 1), MAX_STATES)
        == View(slots, flags, first, MAX_STATES)[1..] + [Entry(s, false)]
  {
    var slot := Slot(first, MAX_STATES);
    var v := View(slots, flags, first, MAX_STATES);
    var v' := View(slots[slot := s], flags[slot := false], Slot(first, 1), MAX_STATES);
    SlotShift(first, MAX_STATES - 1);
    forall k | 0 <= k < MAX_STATES - 1
      ensures v'[k] == v[k + 1]
    {
      SlotShift(first, k);
      SlotInjective(first, k + 1, 0);
    }
  }

  /** One step of the drain loop over ring `r` (the ring `ring0` as it stood before the
      loop, with positions from `i` on still untouched): visiting position `i` keeps the
      walk on course to the drain `total` of the `w0` retained entries. */
  lemma DrainWalkStep<T>(w0: seq<Entry<T>>, ring0: seq<Entry<T>>, r: seq<Entry<T>>, r': seq<Entry<T>>,
                         i: nat, budget: int, taken: seq<T>, taken': seq<T>, total: Drained<T>)
    requires |r| == |ring0| && |r'| == |r| && i < |w0| <= |ring0| && w0 == ring0[..|w0|]
    requires forall k :: i <= k < |r| ==> r[k] == ring0[k]
    requires |taken| < budget && DrainedSoFar(w0, i, budget, taken, r[..i], total)
    requires r[i].obtained ==> r' == r && taken' == taken
    requires !r[i].obtained ==> r' == r[i := Entry(r[i].state, true)] && taken' == taken + [r[i].state]
    ensures forall k :: i + 1 <= k < |r'| ==> r'[k] == ring0[k]
    ensures DrainedSoFar(w0, i + 1, budget, taken', r'[..i + 1], total)
  {
    DrainStep(w0, i, budget, taken, r[..i], total);
    assert r'[..i + 1] == r[..i] + [r'[i]];
  }

  /** The end of the drain loop, by exhaustion or by a spent budget: the walk has
      handed out the whole drain and left the ring past the retained entries alone. */
  lemma DrainWalkDone<T>(w0: seq<Entry<T>>, ring0: seq<Entry<T>>, r: seq<Entry<T>>,
                         i: nat, budget: int, taken: seq<T>, total: Drained<T>)
    requires |r| == |ring0| && i <= |w0| <= |ring0| && w0 == ring0[..|w0|]
    requires forall k :: i <= k < |r| ==> r[k] == ring0[k]
    requires i == |w0| || |taken| >= budget
    requires DrainedSoFar(w0, i, budget, taken, r[..i], total)
    ensures taken == total.taken && r[..|w0|] == total.window
    ensures r[|w0|..] == ring0[|w0|..]
  {
    assert r[..|w0|] == r[..i] + w0[i..];
  }

  class GameController {
    const states: array<State>
    const obtained: array<bool>
    var firstState: nat
    var statesNum: nat
    var lastState: State
    var connected: bool
    var connectedCount: int32

    /** The object invariant: the count and start are within the capacity, and the
        newest retained snapshot is the last one published. */
    ghost predicate Valid()
      reads this, states
    {
      states.Length == MAX_STATES && obtained.Length == MAX_STATES &&
      firstState < MAX_STATES && statesNum <= MAX_STATES &&
      (statesNum > 0 ==> states[Slot(firstState, statesNum - 1)] == lastState)
    }

    /** Every slot, in ring order starting at the oldest retained snapshot. */
    ghost function Ring(): (r: seq<Entry<State>>)
      reads this, states, obtained
      requires Valid()
      ensures |r| == MAX_STATES
    {
      View(states[..], obtained[..], firstState, MAX_STATES)
    }

    /** The retained snapshots, oldest first, with their obtained flags. */
    ghost function Entries(): (w: seq<Entry<State>>)
      reads this, states, obtained
      requires Valid()
      ensures |w| == statesNum <= MAX_STATES
    {
      View(states[..], obtained[..], firstState, statesNum)
    }

    /** An empty history whose last published snapshot is the default one. The
        connection fields are maintained elsewhere; their initial values are given. */
    constructor (connected: bool, connectedCount: int32)
      ensures Valid() && fresh(states) && fresh(obtained)
      ensures statesNum == 0 && Entries() == [] && lastState == DEFAULT_STATE
      ensures GetLastState() == DEFAULT_STATE
      ensures this.connected == connected && this.connectedCount == connectedCount
    {
      states := new State[MAX_STATES](_ => DEFAULT_STATE);
      obtained := new bool[MAX_STATES](_ => false);
      firstState := 0;
      statesNum := 0;
      lastState := DEFAULT_STATE;
      this.connected := connected;
      this.connectedCount := connectedCount;
    }

    /** The newest snapshot: the newest retained one, or the last published when none
        is retained (initially the default one). */
    function GetLastState(): (s: State)
      reads this, states
      requires Valid()
      ensures s == lastState
      ensures statesNum > 0 ==> s == states[Slot(firstState, statesNum - 1)]
    {
      if statesNum == 0 then lastState else states[Slot(firstState, statesNum - 1)]
    }

    /** Peek: the newest snapshot with the connection fields; changes nothing. */
    method ReadState() returns (state: State, isConnected: bool, count: int32)
      requires Valid()
      ensures state == lastState
      ensures statesNum > 0 ==> state == Entries()[statesNum - 1].state
      ensures isConnected == connected && count == connectedCount
    {
      isConnected := connected;
      count := connectedCount;
      state := GetLastState();
    }

    /** Publish `state`: write it past the newest retained snapshot, evicting the
        oldest first when the ring is full. */
    method AddState(state: State)
      requires Valid()
      modifies this`firstState, this`statesNum, this`lastState, states, obtained
      ensures Valid()
      ensures Entries() == Publish(old(Entries()), state)
      ensures lastState == state && GetLastState() == state
      ensures 1 <= statesNum <= MAX_STATES && firstState < MAX_STATES
      ensures old(statesNum) >= MAX_STATES ==>
        firstState == (old(firstState) + 1) % MAX_STATES && statesNum == MAX_STATES
      ensures old(statesNum) < MAX_STATES ==>
        firstState == old(firstState) && statesNum == old(statesNum) + 1
      ensures var slot := Slot(old(firstState), old(statesNum));
        states[slot] == state && !obtained[slot] &&
        forall j :: 0 <= j < MAX_STATES && j != slot ==>
          states[j] == old(states[j]) && obtained[j] == old(obtained[j])
    {
      ghost var slots, flags := states[..], obtained[..];
      ghost var slot := Slot(firstState, statesNum);
      if statesNum >= MAX_STATES {
        ViewRotate(slots, flags, firstState, state);
        SlotShift(firstState, MAX_STATES - 1);
        statesNum := MAX_STATES - 1;
        firstState := (firstState + 1) % MAX_STATES;
      } else {
        ViewAppend(slots, flags, firstState, statesNum, state);
      }
      var index := (firstState + statesNum) % MAX_STATES;
      assert index == slot;
      states[index] := state;
      lastState := state;
      obtained[index] := false;
      statesNum := statesNum + 1;
      assert states[..] == slots[slot := state];
      assert obtained[..] == flags[slot := false];
    }

    /** A button event at `time`: publish the newest snapshot with the bits of `button`
        set (pressed) or cleared (released). */
    method CheckButton(button: Buttons, isPressed: bool, time: uint64)
      requires Valid()
      modifies this`firstState, this`statesNum, this`lastState, states, obtained
      ensures Valid()
      ensures lastState == ButtonSample(old(lastState), button, isPressed, time)
      ensures Entries() == Publish(old(Entries()), lastState)
    {
      var state := GetLastState();
      state := state.(time := time);
      if isPressed {
        state := state.(buttonsState := state.buttonsState + button);
      } else {
        state := state.(buttonsState := state.buttonsState - button);
      }
      AddState(state);
    }

    /** An analog event at `time`: publish the newest snapshot with `value` on `axis`;
        a trigger axis also latches its digital button with hysteresis. */
    method Axis(axis: Axis, value: int32, time: uint64)
      requires Valid()
      modifies this`firstState, this`statesNum, this`lastState, states, obtained
      ensures Valid()
      ensures lastState == AxisSample(old(lastState), axis, value, time)
      ensures Entries() == Publish(old(Entries()), lastState)
    {
      var state := GetLastState();
      state := state.(time := time);
      var axisId := AxisIndex(axis);
      state := state.(axes := state.axes[axisId := value]);
      if axis == TriggerLeft {
        if value > ON_THRESHOLD {
          state := state.(buttonsState := state.buttonsState + {BUTTON_L2});
        } else if value < OFF_THRESHOLD {
          state := state.(buttonsState := state.buttonsState - {BUTTON_L2});
        }
      }
      if axis == TriggerRight {
        if value > ON_THRESHOLD {
          state := state.(buttonsState := state.buttonsState + {BUTTON_R2});
        } else if value < OFF_THRESHOLD {
          state := state.(buttonsState := state.buttonsState - {BUTTON_R2});
        }
      }
      AddState(state);
    }

    /** Drain: hand out, oldest first, up to `maxStates` retained snapshots no drain has
        obtained yet, marking each as obtained. When connected with nothing retained it
        hands out the last published snapshot; when disconnected, nothing. */
    method ReadStates(maxStates: int32) returns (taken: seq<State>, isConnected: bool, count: int32)
      requires Valid()
      modifies obtained
      ensures Valid()
      ensures isConnected == connected && count == connectedCount
      ensures !connected ==> taken == [] && obtained[..] == old(obtained[..])
      ensures connected && statesNum == 0 ==> taken == [lastState] && obtained[..] == old(obtained[..])
      ensures connected && statesNum > 0 ==>
        var d := Drain(old(Entries()), maxStates);
        taken == d.taken && Entries() == d.window && |taken| <= Quota(maxStates, statesNum)
      ensures Ring()[statesNum..] == old(Ring())[statesNum..]
    {
      isConnected := connected;
      count := connectedCount;
      taken := [];
      if connected {
        if statesNum == 0 {
          taken := [lastState];
        } else {
          ghost var w0 := Entries();
          taken := TakePending(maxStates);
          DrainWithinBudget(w0, maxStates);
        }
      }
    }

    /** The walk over the retained snapshots, oldest first, that takes each one not yet
        obtained until `maxStates` have been taken. */
    method TakePending(maxStates: int32) returns (taken: seq<State>)
      requires Valid()
      modifies obtained
      ensures Valid()
      ensures var d := Drain(old(Entries()), maxStates);
        taken == d.taken && Entries() == d.window
      ensures Ring()[statesNum..] == old(Ring())[statesNum..]
    {
      ghost var slots := states[..];
      ghost var ring0 := Ring();
      ghost var w0 := ring0[..statesNum];
      ghost var d0 := Drain(w0, maxStates);
      ViewPrefix(slots, obtained[..], firstState, statesNum, MAX_STATES);
      assert w0[0..] == w0;
      taken := [];
      var i: nat := 0;
      while i < statesNum
        invariant i <= statesNum && obtained.Length == MAX_STATES
        invariant forall k :: i <= k < MAX_STATES ==> View(slots, obtained[..], firstState, MAX_STATES)[k] == ring0[k]
        invariant DrainedSoFar(w0, i, maxStates, taken, View(slots, obtained[..], firstState, MAX_STATES)[..i], d0)
      {
        if |taken| >= maxStates {
          break;
        }
        var index := (firstState + i) % MAX_STATES;
        ghost var flags, taken0 := obtained[..], taken;
        ghost var r := View(slots, flags, firstState, MAX_STATES);
        if !obtained[index] {
          ViewMark(slots, flags, firstState, MAX_STATES, i);
          obtained[index] := true;
          taken := taken + [states[index]];
          assert obtained[..] == flags[index := true];
        }
        DrainWalkStep(w0, ring0, r, View(slots, obtained[..], firstState, MAX_STATES), i, maxStates, taken0, taken, d0);
        i := i + 1;
      }
      DrainWalkDone(w0, ring0, View(slots, obtained[..], firstState, MAX_STATES), i, maxStates, taken, d0);
      ViewPrefix(slots, obtained[..], firstState, statesNum, MAX_STATES);
    }
  }
}
