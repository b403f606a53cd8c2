/** The history window of a game controller, as a value: the retained snapshots from
    oldest to newest, each with the flag saying whether a drain has already handed it
    out. Publishing appends and evicts the oldest when full; draining hands out the
    oldest snapshots not yet handed out. */
module StateHistory {
  /** Capacity of the window. */
  const MAX_STATES: nat := 64

  /** A retained snapshot and whether it has been obtained by a drain. */
  datatype Entry<T> = Entry(state: T, obtained: bool)

  /** The result of a drain: the snapshots handed out and the window afterwards. */
  datatype Drained<T> = Drained(taken: seq<T>, window: seq<Entry<T>>)

  /** The newest `MAX_STATES` elements of `xs` (all of it when shorter). */
  function Newest<T>(xs: seq<T>): seq<T>
  {
    if |xs| <= MAX_STATES then xs else xs[|xs| - MAX_STATES..]
  }

  /** Fresh, not yet obtained entries for `hs`. */
  function Fresh<T>(hs: seq<T>): seq<Entry<T>>
  {
    seq(|hs|, i requires 0 <= i < |hs| => Entry(hs[i], false))
  }

  /** The snapshots of a window that no drain has obtained yet, oldest first. */
  function Pending<T>(w: seq<Entry<T>>): seq<T>
    decreases |w|
  {
    if w == [] then []
    else (if w[0].obtained then [] else [w[0].state]) + Pending(w[1..])
  }

  /** The window after publishing `s`: the new snapshot, not obtained yet, is the
      newest entry, and the window stays within capacity. */
  function Publish<T>(w: seq<Entry<T>>, s: T): (r: seq<Entry<T>>)
    requires |w| <= MAX_STATES
    ensures 1 <= |r| <= MAX_STATES && r[|r| - 1] == Entry(s, false)
  {
    if |w| >= MAX_STATES then w[1..] + [Entry(s, false)] else w + [Entry(s, false)]
  }

  /** Publishing keeps the newest `MAX_STATES` entries of the old window followed by
      the new one: when full, exactly the oldest entry is evicted and the rest keep
      their order. */
  lemma PublishKeepsNewest<T>(w: seq<Entry<T>>, s: T)
    requires |w| <= MAX_STATES
    ensures Publish(w, s) == Newest(w + [Entry(s, false)])
  {
    if |w| >= MAX_STATES {
      assert (w + [Entry(s, false)])[1..] == w[1..] + [Entry(s, false)];
    }
  }

  /** The window after publishing each of `hs` in turn. */
  function PublishAll<T>(w: seq<Entry<T>>, hs: seq<T>): seq<Entry<T>>
    requires |w| <= MAX_STATES
    decreases |hs|
  {
    if hs == [] then w else PublishAll(Publish(w, hs[0]), hs[1..])
  }

  /** Walk the window oldest to newest, handing out and marking each entry not obtained
      yet, until `budget` snapshots have been handed out (none when `budget <= 0`). */
  function Drain<T>(w: seq<Entry<T>>, budget: int): (r: Drained<T>)
    ensures |r.window| == |w|
    decreases |w|
  {
    if w == [] || budget <= 0 then Drained([], w)
    else if w[0].obtained then
      var rest := Drain(w[1..], budget);
      Drained(rest.taken, [w[0]] + rest.window)
    else
      var rest := Drain(w[1..], budget - 1);
      Drained([w[0].state] + rest.taken, [Entry(w[0].state, true)] + rest.window)
  }

  /** How many of `available` pending snapshots a drain with `budget` hands out. */
  function Quota(budget: int, available: nat): nat
  {
    if budget <= 0 then 0 else if budget < available then budget else available
  }

  /** A drain hands out no more than its budget, nor more than the window holds. */
  lemma {:induction false} DrainWithinBudget<T>(w: seq<Entry<T>>, budget: int)
    ensures |Drain(w, budget).taken| <= Quota(budget, |w|)
    decreases |w|
  {
    if w != [] && budget > 0 {
      DrainWithinBudget(w[1..], if w[0].obtained then budget else budget - 1);
    }
  }

  lemma {:induction false} PendingAppend<T>(a: seq<Entry<T>>, b: seq<Entry<T>>)
    ensures Pending(a + b) == Pending(a) + Pending(b)
    decreases |a|
  {
    if a == [] {
      assert a + b == b;
    } else {
      assert (a + b)[1..] == a[1..] + b;
      PendingAppend(a[1..], b);
    }
  }

  lemma PendingCons<T>(e: Entry<T>, w: seq<Entry<T>>)
    ensures Pending([e] + w) == (if e.obtained then [] else [e.state]) + Pending(w)
  {
    assert ([e] + w)[1..] == w;
  }

  /** Not-yet-obtained snapshots form a queue that a drain dequeues from: it hands out
      the oldest pending snapshots, as many as the budget allows, in order. */
  lemma {:induction false} DrainTakesOldestPending<T>(w: seq<Entry<T>>, budget: int)
    ensures Drain(w, budget).taken == Pending(w)[..Quota(budget, |Pending(w)|)]
    decreases |w|
  {
    if w != [] && budget > 0 {
      var rest := w[1..];
      assert w == [w[0]] + rest;
      PendingCons(w[0], rest);
      if w[0].obtained {
        DrainTakesOldestPending(rest, budget);
      } else {
        DrainTakesOldestPending(rest, budget - 1);
        var k := Quota(budget - 1, |Pending(rest)|);
        assert Pending(w)[..k + 1] == [w[0].state] + Pending(rest)[..k];
      }
    }
  }

  /** Exactly the snapshots a drain hands out stop being pending: the rest of the queue
      is still pending, in order. */
  lemma {:induction false} DrainLeavesRestPending<T>(w: seq<Entry<T>>, budget: int)
    ensures Pending(Drain(w, budget).window) == Pending(w)[Quota(budget, |Pending(w)|)..]
    decreases |w|
  {
    if w != [] && budget > 0 {
      var rest := w[1..];
      assert w == [w[0]] + rest;
      PendingCons(w[0], rest);
      if w[0].obtained {
        DrainLeavesRestPending(rest, budget);
        PendingCons(w[0], Drain(rest, budget).window);
      } else {
        DrainLeavesRestPending(rest, budget - 1);
        PendingCons(Entry(w[0].state, true), Drain(rest, budget - 1).window);
        var k := Quota(budget - 1, |Pending(rest)|);
        assert Pending(w)[k + 1..] == Pending(rest)[k..];
      }
    }
  }

  /** A walk that has handed out `taken` and produced `prefix` from the first `i`
      entries of `w` finishes as the whole drain `total` when it drains the rest. */
  ghost predicate DrainedSoFar<T>(w: seq<Entry<T>>, i: nat, budget: int, taken: seq<T>,
                                  prefix: seq<Entry<T>>, total: Drained<T>)
    requires i <= |w|
  {
    var d := Drain(w[i..], budget - |taken|);
    taken + d.taken == total.taken && prefix + d.window == total.window
  }

  /** One step of the walk: an entry already obtained is kept as it is; one not yet
      obtained is handed out and marked. */
  lemma DrainStep<T>(w: seq<Entry<T>>, i: nat, budget: int, taken: seq<T>,
                     prefix: seq<Entry<T>>, total: Drained<T>)
    requires i < |w| && |taken| < budget && DrainedSoFar(w, i, budget, taken, prefix, total)
    ensures w[i].obtained ==> DrainedSoFar(w, i + 1, budget, taken, prefix + [w[i]], total)
    ensures !w[i].obtained ==>
      DrainedSoFar(w, i + 1, budget, taken + [w[i].state], prefix + [Entry(w[i].state, true)], total)
  {
    assert w[i..] == [w[i]] + w[i + 1..];
    assert w[i..][1..] == w[i + 1..];
  }

  /** A drain changes no snapshot of the window and clears no obtained flag. */
  lemma {:induction false} DrainOnlyMarks<T>(w: seq<Entry<T>>, budget: int)
    ensures forall i :: 0 <= i < |w| ==> Drain(w, budget).window[i].state == w[i].state
    ensures forall i :: 0 <= i < |w| && w[i].obtained ==> Drain(w, budget).window[i].obtained
    decreases |w|
  {
    if w != [] && budget > 0 {
      DrainOnlyMarks(w[1..], if w[0].obtained then budget else budget - 1);
    }
  }

  lemma SliceJoin<T>(p: seq<T>, k1: nat, k2: nat)
    requires k1 + k2 <= |p|
    ensures p[..k1 + k2] == p[..k1] + p[k1..][..k2]
  {
  }

  /** At most once: two drains in a row hand out consecutive, non-overlapping runs of
      the pending queue, in order, so nothing the first one returned is returned again. */
  lemma DrainTwice<T>(w: seq<Entry<T>>, first: int, second: int)
    ensures var d1 := Drain(w, first);
      var k1 := Quota(first, |Pending(w)|);
      var k2 := Quota(second, |Pending(w)| - k1);
      d1.taken + Drain(d1.window, second).taken == Pending(w)[..k1 + k2]
  {
    var p := Pending(w);
    var d1 := Drain(w, first);
    var k1 := Quota(first, |p|);
    DrainTakesOldestPending(w, first);
    DrainLeavesRestPending(w, first);
    DrainTakesOldestPending(d1.window, second);
    SliceJoin(p, k1, Quota(second, |p| - k1));
  }

  /** After a drain whose budget covers everything pending, a second drain hands out
      nothing. */
  lemma DrainAllThenNothing<T>(w: seq<Entry<T>>, first: int, second: int)
    requires first >= |Pending(w)|
    ensures Drain(Drain(w, first).window, second).taken == []
  {
    var d1 := Drain(w, first);
    DrainLeavesRestPending(w, first);
    DrainTakesOldestPending(d1.window, second);
  }

  /** Publishing makes the new snapshot pending last; the pending queue otherwise only
      loses its oldest element, and only when the window was full and the evicted
      snapshot had not been obtained (it is lost, not re-sent or reordered). */
  lemma PublishPending<T>(w: seq<Entry<T>>, s: T)
    requires |w| <= MAX_STATES
    ensures Pending(Publish(w, s)) ==
      (if |w| == MAX_STATES && !w[0].obtained then Pending(w)[1..] else Pending(w)) + [s]
  {
    var e := Entry(s, false);
    assert Pending([e]) == [s] by {
      assert [e][1..] == [];
    }
    if |w| >= MAX_STATES {
      assert Publish(w, s) == w[1..] + [e];
      PendingAppend(w[1..], [e]);
      assert Pending(w) == (if w[0].obtained then [] else [w[0].state]) + Pending(w[1..]);
    } else {
      assert Publish(w, s) == w + [e];
      PendingAppend(w, [e]);
    }
  }

  /** Taking the newest of the newest, after appending, loses nothing extra. */
  lemma NewestAppend<T>(a: seq<T>, b: seq<T>)
    ensures Newest(Newest(a) + b) == Newest(a + b)
  {
    var na := Newest(a);
    assert na + b == (a + b)[|a| - |na|..];
  }

  /** Bounded window: however many snapshots are published, the window holds exactly
      the newest `MAX_STATES` of everything ever published, in order, none obtained. */
  lemma {:induction false} PublishAllKeepsNewest<T>(w: seq<Entry<T>>, hs: seq<T>)
    requires |w| <= MAX_STATES
    ensures PublishAll(w, hs) == Newest(w + Fresh(hs))
    decreases |hs|
  {
    if hs == [] {
      assert w + Fresh(hs) == w;
    } else {
      var e := Entry(hs[0], false);
      var rest := Fresh(hs[1..]);
      PublishAllKeepsNewest(Publish(w, hs[0]), hs[1..]);
      assert Publish(w, hs[0]) == Newest(w + [e]) by {
        PublishKeepsNewest(w, hs[0]);
      }
      assert Newest(Newest(w + [e]) + rest) == Newest(w + Fresh(hs)) by {
        NewestAppend(w + [e], rest);
        FreshCons(hs);
        assert w + [e] + rest == w + Fresh(hs);
      }
    }
  }

  lemma FreshCons<T>(hs: seq<T>)
    requires hs != []
    ensures Fresh(hs) == [Entry(hs[0], false)] + Fresh(hs[1..])
  {
  }

  lemma {:induction false} PendingFresh<T>(hs: seq<T>)
    ensures Pending(Fresh(hs)) == hs
    decreases |hs|
  {
    if hs != [] {
      assert Fresh(hs)[1..] == Fresh(hs[1..]);
      PendingFresh(hs[1..]);
    }
  }

  lemma NewestFresh<T>(hs: seq<T>)
    ensures Newest(Fresh(hs)) == Fresh(Newest(hs))
  {
    if |hs| > MAX_STATES {
      var n := |hs| - MAX_STATES;
      assert Fresh(hs)[n..] == Fresh(hs[n..]);
    }
  }

  /** From an empty window, publishing `hs` and then draining with `budget` hands out
      the oldest snapshots that survived eviction (the newest `MAX_STATES` of `hs`), as
      many as the budget allows, in publish order. */
  lemma PublishThenDrain<T>(hs: seq<T>, budget: int)
    ensures var survivors := Newest(hs);
      Drain(PublishAll([], hs), budget).taken == survivors[..Quota(budget, |survivors|)]
  {
    PublishAllKeepsNewest([], hs);
    assert [] + Fresh(hs) == Fresh(hs);
    NewestFresh(hs);
    PendingFresh(Newest(hs));
    DrainTakesOldestPending(PublishAll([], hs), budget);
  }
}
