/** `RoundRobinBalancer` (llama-proxy/src/backends/round_robin.rs:15-58): the
    rotating walk over the nodes, and how fairly it spreads requests. */
module RoundRobin {
  import opened Options
  import opened Machine
  import opened SelectSpec
  import opened Backends

  /** How many values a usize counter runs through. */
  const USIZE: nat := USIZE_MAX + 1

  // ---------- which node a counter value selects ----------

  /** Steps from `start` to the first node that is not cooled; n when all are. */
  function FirstHealthyStep(cooled: seq<bool>, start: nat, step: nat): (r: nat)
    requires |cooled| > 0 && step <= |cooled|
    ensures step <= r <= |cooled|
    ensures r < |cooled| ==> !cooled[CandidateAt(|cooled|, start, r)]
    ensures forall k: nat :: step <= k < r ==> cooled[CandidateAt(|cooled|, start, k)]
    decreases |cooled| - step
  {
    if step == |cooled| then step
    else if cooled[CandidateAt(|cooled|, start, step)] then FirstHealthyStep(cooled, start, step + 1)
    else step
  }

  ghost predicate SomeHealthy(cooled: seq<bool>) {
    exists i :: 0 <= i < |cooled| && !cooled[i]
  }

  /** The node the walk from `start` serves, when one is healthy. */
  function Pick(cooled: seq<bool>, start: nat): Option<nat>
    requires |cooled| > 0
  {
    var r := FirstHealthyStep(cooled, start, 0);
    if r < |cooled| then Some(CandidateAt(|cooled|, start, r)) else None
  }

  /** The walk finds a healthy node whenever there is one. */
  lemma PickFindsHealthy(cooled: seq<bool>, start: nat)
    requires |cooled| > 0
    ensures Pick(cooled, start).Some? <==> SomeHealthy(cooled)
    ensures Pick(cooled, start).Some? ==> Pick(cooled, start).value < |cooled| && !cooled[Pick(cooled, start).value]
  {
    var n := |cooled|;
    if SomeHealthy(cooled) {
      var i: nat :| i < n && !cooled[i];
      CandidateOrderIsPermutation(n, start);
      assert CandidateAt(n, start, StepOf(n, start, i)) == i;
    }
  }

  class RoundRobinBalancer {
    const nodes: seq<BackendNode>
    var counter: nat
    var allCooledFallbacks: nat

    ghost predicate Valid()
      reads `counter
    {
      |nodes| >= 1 && counter < USIZE && forall i, j :: 0 <= i < j < |nodes| ==> nodes[i] != nodes[j]
    }

    constructor (nodes: seq<BackendNode>)
      requires |nodes| >= 1 && forall i, j :: 0 <= i < j < |nodes| ==> nodes[i] != nodes[j]
      ensures Valid() && this.nodes == nodes && counter == 0 && allCooledFallbacks == 0
    {
      this.nodes := nodes;
      counter := 0;
      allCooledFallbacks := 0;
    }

    ghost function Cooled(now: Instant): (r: seq<bool>)
      reads nodes
      ensures |r| == |nodes| && forall i :: 0 <= i < |nodes| ==> r[i] == nodes[i].InCooldown(now)
    {
      seq(|nodes|, i requires 0 <= i < |nodes| reads nodes => nodes[i].InCooldown(now))
    }

    /** Serves the node the counter picks, or the soonest to recover when all are
        cooled; the counter moves on by one, wrapping as a usize does. */
    method Select(now: Instant) returns (chosen: nat)
      requires Valid() && forall i :: 0 <= i < |nodes| ==> nodes[i].activeRequests + 1 < USIZE
      modifies nodes`activeRequests, `counter, `allCooledFallbacks
      ensures Valid() && counter == (old(counter) + 1) % USIZE
      ensures chosen < |nodes|
      ensures match Pick(old(Cooled(now)), old(counter))
              case Some(i) => chosen == i && allCooledFallbacks == old(allCooledFallbacks)
              case None =>
                IsSoonest(seq(|nodes|, i requires 0 <= i < |nodes| reads nodes => nodes[i].cooldownUntil as int), chosen)
                && allCooledFallbacks == old(allCooledFallbacks) + 1
      ensures forall i :: 0 <= i < |nodes| ==>
        nodes[i].activeRequests == old(nodes[i].activeRequests) + if i == chosen then 1 else 0
    {
      var len := |nodes|;
      ghost var cooled := Cooled(now);
      var start := counter;
      counter := (counter + 1) % USIZE;
      var step := 0;
      while step < len
        invariant step <= len
        invariant counter == (old(counter) + 1) % USIZE && allCooledFallbacks == old(allCooledFallbacks)
        invariant forall i :: 0 <= i < len ==> nodes[i].activeRequests == old(nodes[i].activeRequests)
        invariant FirstHealthyStep(cooled, start, step) == FirstHealthyStep(cooled, start, 0)
      {
        chosen := CandidateAt(len, start, step);
        if !nodes[chosen].InCooldown(now) {
          nodes[chosen].activeRequests := nodes[chosen].activeRequests + 1;
          return;
        }
        step := step + 1;
      }
      allCooledFallbacks := allCooledFallbacks + 1;
      chosen := SoonestRecovering(nodes);
      nodes[chosen].activeRequests := nodes[chosen].activeRequests + 1;
    }
  }

  // ---------- fairness ----------

  function One(p: bool): nat {
    if p then 1 else 0
  }

  /** How often `h` is served by `len` selects in a row, the counter standing at `c`
      before them and wrapping as a usize does. */
  function Served(cooled: seq<bool>, c: nat, len: nat, h: nat): nat
    requires |cooled| > 0
    decreases len
  {
    if len == 0 then 0
    else One(Pick(cooled, c % USIZE) == Some(h)) + Served(cooled, c + 1, len - 1, h)
  }

  /** The same for a counter that never wraps. */
  function Unwrapped(cooled: seq<bool>, c: nat, len: nat, h: nat): nat
    requires |cooled| > 0
    decreases len
  {
    if len == 0 then 0
    else One(Pick(cooled, c) == Some(h)) + Unwrapped(cooled, c + 1, len - 1, h)
  }

  /** The node `k` places before `h`, cyclically. */
  function Before(n: nat, h: nat, k: nat): (i: nat)
    requires h < n && k < n
    ensures i < n
  {
    if k <= h then h - k else h + n - k
  }

  /** The nodes 1 to `d` places before `h` are all cooled. */
  predicate CooledBefore(cooled: seq<bool>, h: nat, d: nat)
    requires h < |cooled| && d < |cooled|
  {
    forall k: nat :: 1 <= k <= d ==> cooled[Before(|cooled|, h, k)]
  }

  /** The cyclic distance from the healthy node before `h` to `h`: one more than the
      cooled nodes in between, n when `h` is the only healthy one. */
  function Gap(cooled: seq<bool>, h: nat, d: nat): (g: nat)
    requires h < |cooled| && d < |cooled|
    ensures d < g <= |cooled|
    decreases |cooled| - d
  {
    if d + 1 == |cooled| || !cooled[Before(|cooled|, h, d + 1)] then d + 1
    else Gap(cooled, h, d + 1)
  }

  lemma CandidateShift(n: nat, start: nat, step: nat)
    requires n > 0 && step < n
    ensures CandidateAt(n, start + n, step) == CandidateAt(n, start, step)
  {
    ModShift(start, n);
  }

  lemma ModShift(x: nat, n: nat)
    requires n > 0
    ensures (x + n) % n == x % n
  {
    var q, r := x / n, x % n;
    var q', r' := (x + n) / n, (x + n) % n;
    var d := q + 1 - q';
    assert n * d == n * q + n - n * q';
    assert x == n * q + r && x + n == n * q' + r';
    MulAtLeast(n, d);
  }

  lemma MulAtLeast(n: int, d: int)
    requires n > 0
    ensures (d >= 1 ==> n * d >= n) && (d <= -1 ==> n * d <= -n)
  {}

  lemma {:induction false} StepShift(cooled: seq<bool>, start: nat, step: nat)
    requires |cooled| > 0 && step <= |cooled|
    ensures FirstHealthyStep(cooled, start + |cooled|, step) == FirstHealthyStep(cooled, start, step)
    decreases |cooled| - step
  {
    if step < |cooled| {
      CandidateShift(|cooled|, start, step);
      StepShift(cooled, start, step + 1);
    }
  }

  lemma PickShift(cooled: seq<bool>, start: nat)
    requires |cooled| > 0
    ensures Pick(cooled, start + |cooled|) == Pick(cooled, start)
  {
    StepShift(cooled, start, 0);
    var r := FirstHealthyStep(cooled, start, 0);
    if r < |cooled| {
      CandidateShift(|cooled|, start, r);
    }
  }

  lemma {:induction false} UnwrappedConcat(cooled: seq<bool>, c: nat, l1: nat, l2: nat, h: nat)
    requires |cooled| > 0
    ensures Unwrapped(cooled, c, l1 + l2, h) == Unwrapped(cooled, c, l1, h) + Unwrapped(cooled, c + l1, l2, h)
    decreases l1
  {
    hide Pick;
    if l1 > 0 {
      UnwrappedConcat(cooled, c + 1, l1 - 1, l2, h);
    }
  }

  lemma UnwrappedOne(cooled: seq<bool>, c: nat, h: nat)
    requires |cooled| > 0
    ensures Unwrapped(cooled, c, 1, h) == One(Pick(cooled, c) == Some(h))
  {
    hide Pick;
    assert Unwrapped(cooled, c + 1, 0, h) == 0;
  }

  /** Every window of n consecutive counters serves `h` equally often. */
  lemma {:induction false} WindowsAreAlike(cooled: seq<bool>, c: nat, h: nat)
    requires |cooled| > 0
    ensures Unwrapped(cooled, c, |cooled|, h) == Unwrapped(cooled, 0, |cooled|, h)
    decreases c
  {
    hide Pick, Unwrapped;
    if c > 0 {
      var n := |cooled|;
      WindowsAreAlike(cooled, c - 1, h);
      UnwrappedConcat(cooled, c - 1, 1, n - 1, h);
      UnwrappedConcat(cooled, c, n - 1, 1, h);
      UnwrappedOne(cooled, c - 1, h);
      UnwrappedOne(cooled, c - 1 + n, h);
      PickShift(cooled, c - 1);
    }
  }

  /** The walk that starts `d` places before `h` is `k` places before it after
      `d - k` steps. */
  lemma WalkTowards(n: nat, h: nat, d: nat, k: nat)
    requires h < n && k <= d < n
    ensures CandidateAt(n, h + n - d, d - k) == Before(n, h, k)
  {
    WrapOnce(n, h + n - d);
    WrapOnce(n, (h + n - d) % n + (d - k));
  }

  /** From `d` places before `h`, the walk serves `h` exactly when everything it
      passes is cooled. */
  lemma PickFromBefore(cooled: seq<bool>, h: nat, d: nat)
    requires h < |cooled| && d < |cooled| && !cooled[h]
    ensures Pick(cooled, h + |cooled| - d) == Some(h) <==> CooledBefore(cooled, h, d)
  {
    hide CandidateAt, Before, StepOf, FirstHealthyStep;
    var n := |cooled|;
    var start := h + n - d;
    var r := FirstHealthyStep(cooled, start, 0);
    CandidateOrderIsPermutation(n, start);
    WalkTowards(n, h, d, 0);
    BeforeNone(n, h);
    if CooledBefore(cooled, h, d) {
      if r < d {
        WalkTowards(n, h, d, d - r);
      }
    } else {
      var k: nat :| 1 <= k <= d && !cooled[Before(n, h, k)];
      WalkTowards(n, h, d, k);
      assert StepOf(n, start, CandidateAt(n, start, d)) == d;
      if r < n {
        assert StepOf(n, start, CandidateAt(n, start, r)) == r;
      }
    }
  }

  lemma BeforeNone(n: nat, h: nat)
    requires h < n
    ensures Before(n, h, 0) == h
  {}

  /** The window that ends at `h`, counted from its far end at distance `d`. */
  lemma {:induction false} ServedFromBefore(cooled: seq<bool>, h: nat, d: nat)
    requires h < |cooled| && d < |cooled| && !cooled[h]
    ensures Unwrapped(cooled, h + |cooled| - d, d + 1, h)
         == if CooledBefore(cooled, h, d) then d + 1 else Gap(cooled, h, 0)
    decreases d
  {
    hide Pick, Before, Gap;
    var n := |cooled|;
    PickFromBefore(cooled, h, d);
    if d > 0 {
      ServedFromBefore(cooled, h, d - 1);
      assert h + n - d + 1 == h + n - (d - 1);
      if CooledBefore(cooled, h, d - 1) && !CooledBefore(cooled, h, d) {
        GapStops(cooled, h, 0, d);
      }
      assert CooledBefore(cooled, h, d)
        <==> CooledBefore(cooled, h, d - 1) && cooled[Before(n, h, d)];
    }
  }

  /** Gap is where the run of cooled nodes before `h` stops. */
  lemma {:induction false} GapStops(cooled: seq<bool>, h: nat, from: nat, d: nat)
    requires h < |cooled| && from < d < |cooled|
    requires CooledBefore(cooled, h, d - 1) && !CooledBefore(cooled, h, d)
    ensures Gap(cooled, h, from) == d
    decreases d - from
  {
    var k: nat :| 1 <= k <= d && !cooled[Before(|cooled|, h, k)];
    assert k == d;
    if from + 1 < d {
      GapStops(cooled, h, from + 1, d);
    }
  }

  lemma {:induction false} GapWhole(cooled: seq<bool>, h: nat, from: nat)
    requires h < |cooled| && from < |cooled| && CooledBefore(cooled, h, |cooled| - 1)
    ensures Gap(cooled, h, from) == |cooled|
    decreases |cooled| - from
  {
    if from + 1 < |cooled| {
      GapWhole(cooled, h, from + 1);
    }
  }

  lemma UnwrappedShare(cooled: seq<bool>, c: nat, h: nat)
    requires h < |cooled| && !cooled[h]
    ensures Unwrapped(cooled, c, |cooled|, h) == Gap(cooled, h, 0)
  {
    var n := |cooled|;
    ServedFromBefore(cooled, h, n - 1);
    WindowsAreAlike(cooled, c, h);
    WindowsAreAlike(cooled, h + 1, h);
    if CooledBefore(cooled, h, n - 1) {
      GapWhole(cooled, h, 0);
    }
  }

  // ---------- the counter wraps ----------

  lemma {:induction false} ServedConcat(cooled: seq<bool>, c: nat, l1: nat, l2: nat, h: nat)
    requires |cooled| > 0
    ensures Served(cooled, c, l1 + l2, h) == Served(cooled, c, l1, h) + Served(cooled, c + l1, l2, h)
    decreases l1
  {
    hide Pick;
    if l1 > 0 {
      ServedConcat(cooled, c + 1, l1 - 1, l2, h);
    }
  }

  /** Within one lap of the counter nothing wraps. */
  lemma {:induction false} ServedInLap(cooled: seq<bool>, lap: nat, c: nat, len: nat, h: nat)
    requires |cooled| > 0 && c + len <= USIZE && (lap == 0 || lap == USIZE)
    ensures Served(cooled, lap + c, len, h) == Unwrapped(cooled, c, len, h)
    decreases len
  {
    hide Pick;
    if len > 0 {
      LapOff(lap, c);
      assert lap + c + 1 == lap + (c + 1);
      ServedInLap(cooled, lap, c + 1, len - 1, h);
    }
  }

  lemma LapOff(lap: nat, c: nat)
    requires c < USIZE && (lap == 0 || lap == USIZE)
    ensures (lap + c) % USIZE == c
  {}

  lemma {:induction false} PickShiftMany(cooled: seq<bool>, start: nat, k: nat)
    requires |cooled| > 0
    ensures Pick(cooled, start + k * |cooled|) == Pick(cooled, start)
    decreases k
  {
    hide Pick;
    if k > 0 {
      PickShiftMany(cooled, start, k - 1);
      PickShift(cooled, start + (k - 1) * |cooled|);
      assert start + (k - 1) * |cooled| + |cooled| == start + k * |cooled|;
    }
  }

  lemma WholeLaps(x: nat, n: nat)
    requires n > 0 && USIZE % n == 0
    ensures x % USIZE + (x / USIZE) * (USIZE / n) * n == x
  {
    var q, m := x / USIZE, USIZE / n;
    assert m * n == USIZE;
    assert q * m * n == q * (m * n);
    assert q * USIZE + x % USIZE == x;
  }

  /** When n divides the counter's range, wrapping does not show. */
  lemma {:induction false} ServedWithoutSeam(cooled: seq<bool>, c: nat, len: nat, h: nat)
    requires |cooled| > 0 && USIZE % |cooled| == 0
    ensures Served(cooled, c, len, h) == Unwrapped(cooled, c, len, h)
    decreases len
  {
    hide Pick;
    if len > 0 {
      WholeLaps(c, |cooled|);
      PickShiftMany(cooled, c % USIZE, (c / USIZE) * (USIZE / |cooled|));
      ServedWithoutSeam(cooled, c + 1, len - 1, h);
    }
  }

  /** What n selects across the wrap serve, exactly: the share, less what the counters
      past the range would have served, plus what those from 0 on do. */
  lemma ServedAcrossTheWrap(cooled: seq<bool>, c: nat, h: nat)
    requires h < |cooled| <= USIZE && !cooled[h] && c < USIZE < c + |cooled|
    ensures Served(cooled, c, |cooled|, h) + Unwrapped(cooled, USIZE, c + |cooled| - USIZE, h)
         == Gap(cooled, h, 0) + Unwrapped(cooled, 0, c + |cooled| - USIZE, h)
  {
    hide Served, Unwrapped, Pick, Gap;
    var n, up := |cooled|, USIZE - c;
    ServedConcat(cooled, c, up, n - up, h);
    UnwrappedConcat(cooled, c, up, n - up, h);
    ServedInLap(cooled, 0, c, up, h);
    ServedInLap(cooled, USIZE, 0, n - up, h);
    UnwrappedShare(cooled, c, h);
  }

  /** With a fixed set of cooled nodes, n selects in a row serve a healthy node exactly
      as often as its cyclic distance from the healthy node before it, as long as the
      counter does not wrap among them or n divides its range. */
  lemma RoundRobinShare(cooled: seq<bool>, c: nat, h: nat)
    requires h < |cooled| && !cooled[h]
    requires c + |cooled| <= USIZE || USIZE % |cooled| == 0
    ensures Served(cooled, c, |cooled|, h) == Gap(cooled, h, 0) >= 1
  {
    UnwrappedShare(cooled, c, h);
    if c + |cooled| <= USIZE {
      ServedInLap(cooled, 0, c, |cooled|, h);
    } else {
      ServedWithoutSeam(cooled, c, |cooled|, h);
    }
  }

  // ---------- when the rotation is even ----------

  lemma {:induction false} UnwrappedFinds(cooled: seq<bool>, c: nat, len: nat, h: nat)
    requires |cooled| > 0
    ensures Unwrapped(cooled, c, len, h) > 0 <==> exists x: nat :: c <= x < c + len && Pick(cooled, x) == Some(h)
    decreases len
  {
    hide Pick;
    if len > 0 {
      UnwrappedFinds(cooled, c + 1, len - 1, h);
    }
  }

  ghost predicate NoneCooled(cooled: seq<bool>) {
    |cooled| > 0 && forall i :: 0 <= i < |cooled| ==> !cooled[i]
  }

  lemma PickWithNoneCooled(cooled: seq<bool>, c: nat)
    requires NoneCooled(cooled)
    ensures Pick(cooled, c) == Some(c % |cooled|)
  {
    assert CandidateAt(|cooled|, c, 0) == c % |cooled| by {
      WrapOnce(|cooled|, c % |cooled|);
    }
  }

  lemma {:induction false} GapWithNoneCooled(cooled: seq<bool>, h: nat)
    requires NoneCooled(cooled) && h < |cooled|
    ensures Gap(cooled, h, 0) == 1
  {}

  lemma StepBack(x: nat, n: nat)
    requires n > 0 && x > 0 && x % n == 0
    ensures (x - 1) % n == n - 1
  {
    var q := x / n;
    assert x == q * n;
    assert x - 1 == (q - 1) * n + (n - 1);
    DivisionIsUnique(x - 1, n, q - 1, n - 1);
  }

  lemma DivisionIsUnique(x: nat, n: nat, q: int, r: nat)
    requires n > 0 && x == q * n + r && r < n
    ensures x % n == r
  {
    var d := q - x / n;
    assert x == (x / n) * n + x % n;
    assert n * d == x % n - r;
    MulAtLeast(n, d);
  }

  /** With no node cooled, n selects across the wrap leave some node out or serve some
      node twice, unless n divides the counter's range. */
  lemma UnevenAcrossTheWrap(cooled: seq<bool>, c: nat) returns (h: nat)
    requires NoneCooled(cooled) && |cooled| <= USIZE && c < USIZE < c + |cooled| && USIZE % |cooled| != 0
    ensures h < |cooled| && Served(cooled, c, |cooled|, h) != 1
  {
    hide Served, Unwrapped, Pick, Gap;
    var n := |cooled|;
    var over := c + n - USIZE;
    h := 0;
    GapWithNoneCooled(cooled, 0);
    ServedAcrossTheWrap(cooled, c, 0);
    UnwrappedFinds(cooled, 0, over, 0);
    UnwrappedFinds(cooled, USIZE, over, 0);
    PickWithNoneCooled(cooled, 0);
    if Unwrapped(cooled, USIZE, over, 0) > 0 {
      h := n - 1;
      var x: nat :| USIZE <= x < USIZE + over && Pick(cooled, x) == Some(0);
      LastIsServed(cooled, x, over);
      LastIsLeftOut(cooled, over);
      GapWithNoneCooled(cooled, n - 1);
      ServedAcrossTheWrap(cooled, c, n - 1);
    }
  }

  /** The counter before one that serves node 0 serves the last node. */
  lemma LastIsServed(cooled: seq<bool>, x: nat, over: nat)
    requires NoneCooled(cooled) && USIZE % |cooled| != 0
    requires USIZE <= x < USIZE + over && Pick(cooled, x) == Some(0)
    ensures Unwrapped(cooled, USIZE, over, |cooled| - 1) > 0
  {
    hide Pick, Unwrapped;
    PickWithNoneCooled(cooled, x);
    StepBack(x, |cooled|);
    PickWithNoneCooled(cooled, x - 1);
    UnwrappedFinds(cooled, USIZE, over, |cooled| - 1);
  }

  lemma LastIsLeftOut(cooled: seq<bool>, over: nat)
    requires NoneCooled(cooled) && over < |cooled|
    ensures Unwrapped(cooled, 0, over, |cooled| - 1) == 0
  {
    hide Pick, Unwrapped;
    forall y: nat | y < over ensures Pick(cooled, y) != Some(|cooled| - 1) {
      PickWithNoneCooled(cooled, y);
      WrapOnce(|cooled|, y);
    }
    UnwrappedFinds(cooled, 0, over, |cooled| - 1);
  }

  ghost predicate ServesEachOnce(cooled: seq<bool>, c: nat)
    requires |cooled| > 0
  {
    forall h :: 0 <= h < |cooled| ==> Served(cooled, c, |cooled|, h) == 1
  }

  /** With no node cooled, n selects in a row serve every node exactly once if and only
      if the counter does not wrap among them or n divides its range. */
  lemma RoundRobinIsEvenIff(cooled: seq<bool>, c: nat)
    requires NoneCooled(cooled) && |cooled| <= USIZE && c < USIZE
    ensures ServesEachOnce(cooled, c) <==> c + |cooled| <= USIZE || USIZE % |cooled| == 0
  {
    if c + |cooled| <= USIZE || USIZE % |cooled| == 0 {
      forall h | 0 <= h < |cooled| ensures Served(cooled, c, |cooled|, h) == 1 {
        RoundRobinShare(cooled, c, h);
        GapWithNoneCooled(cooled, h);
      }
    } else {
      var h := UnevenAcrossTheWrap(cooled, c);
    }
  }

  // ---------- the code, called in a row ----------

  lemma {:induction false} ServedSnoc(cooled: seq<bool>, c: nat, len: nat, h: nat)
    requires |cooled| > 0
    ensures Served(cooled, c, len + 1, h)
         == Served(cooled, c, len, h) + One(Pick(cooled, (c + len) % USIZE) == Some(h))
  {
    hide Pick;
    ServedConcat(cooled, c, len, 1, h);
    assert Served(cooled, c + len + 1, 0, h) == 0;
  }

  lemma NextCount(c: nat, k: nat)
    ensures ((c + k) % USIZE + 1) % USIZE == (c + (k + 1)) % USIZE
  {}

  function Times(chosen: seq<nat>, h: nat): nat {
    multiset(chosen)[h]
  }

  ghost predicate Tallies(chosen: seq<nat>, cooled: seq<bool>, c: nat)
    requires |cooled| > 0
  {
    forall h: nat :: Times(chosen, h) == Served(cooled, c, |chosen|, h)
  }

  /** A client that selects `len` times while no cooldown changes: how often it was
      given each node, and what the node's counter shows for it, is what Served
      counts. */
  method SelectInARow(balancer: RoundRobinBalancer, now: Instant, len: nat) returns (chosen: seq<nat>)
    requires balancer.Valid() && SomeHealthy(balancer.Cooled(now))
    requires forall i :: 0 <= i < |balancer.nodes| ==> balancer.nodes[i].activeRequests + len < USIZE
    modifies balancer.nodes`activeRequests, balancer`counter, balancer`allCooledFallbacks
    ensures |chosen| == len && balancer.counter == (old(balancer.counter) + len) % USIZE
    ensures Tallies(chosen, old(balancer.Cooled(now)), old(balancer.counter))
    ensures forall i :: 0 <= i < |balancer.nodes| ==>
              balancer.nodes[i].activeRequests == old(balancer.nodes[i].activeRequests) + Times(chosen, i)
  {
    hide Pick, Served, SomeHealthy, Times, Tallies;
    ghost var cooled, c := balancer.Cooled(now), balancer.counter;
    chosen := [];
    NoTallies(cooled, c);
    while |chosen| < len
      invariant |chosen| <= len && balancer.Valid() && balancer.counter == (c + |chosen|) % USIZE
      invariant balancer.Cooled(now) == cooled
      invariant Tallies(chosen, cooled, c)
      invariant forall i :: 0 <= i < |balancer.nodes| ==>
                  balancer.nodes[i].activeRequests == old(balancer.nodes[i].activeRequests) + Times(chosen, i)
    {
      TimesAtMost(chosen);
      var next := SelectHealthy(balancer, now);
      TalliesSnoc(chosen, next, cooled, c);
      NextCount(c, |chosen|);
      chosen := chosen + [next];
    }
  }

  /** One select while some node is healthy: cooldowns stay, one load goes up. */
  method SelectHealthy(balancer: RoundRobinBalancer, now: Instant) returns (chosen: nat)
    requires balancer.Valid() && SomeHealthy(balancer.Cooled(now))
    requires forall i :: 0 <= i < |balancer.nodes| ==> balancer.nodes[i].activeRequests + 1 < USIZE
    modifies balancer.nodes`activeRequests, balancer`counter, balancer`allCooledFallbacks
    ensures balancer.Valid() && balancer.counter == (old(balancer.counter) + 1) % USIZE
    ensures balancer.Cooled(now) == old(balancer.Cooled(now))
    ensures Pick(old(balancer.Cooled(now)), old(balancer.counter)) == Some(chosen)
    ensures forall i :: 0 <= i < |balancer.nodes| ==>
              balancer.nodes[i].activeRequests == old(balancer.nodes[i].activeRequests) + One(chosen == i)
  {
    hide Pick, SomeHealthy;
    PickFindsHealthy(balancer.Cooled(now), balancer.counter);
    chosen := balancer.Select(now);
  }

  lemma NoTallies(cooled: seq<bool>, c: nat)
    requires |cooled| > 0
    ensures Tallies([], cooled, c) && forall h: nat :: Times([], h) == 0
  {}

  lemma TalliesSnoc(chosen: seq<nat>, next: nat, cooled: seq<bool>, c: nat)
    requires |cooled| > 0 && Tallies(chosen, cooled, c) && Pick(cooled, (c + |chosen|) % USIZE) == Some(next)
    ensures Tallies(chosen + [next], cooled, c)
    ensures forall h: nat :: Times(chosen + [next], h) == Times(chosen, h) + One(next == h)
  {
    hide Pick, Served;
    forall h: nat ensures Times(chosen + [next], h) == Served(cooled, c, |chosen| + 1, h) {
      ServedSnoc(cooled, c, |chosen|, h);
    }
  }

  lemma {:induction false} TimesAtMost(xs: seq<nat>)
    ensures forall h: nat :: Times(xs, h) <= |xs|
    decreases |xs|
  {
    if xs != [] {
      var n := |xs| - 1;
      TimesAtMost(xs[..n]);
      assert xs == xs[..n] + [xs[n]];
      forall h: nat ensures Times(xs, h) <= |xs| {
        assert Times(xs, h) == Times(xs[..n], h) + One(xs[n] == h);
      }
    }
  }
}
