/** `PriorityFreeBalancer` run by one thread at a time
    (llama-proxy/src/backends/priority_free.rs:16-110): loops over the nodes'
    counters, proved to choose the node SelectSpec prescribes. */
module PriorityFree {
  import opened Options
  import opened Machine
  import opened SelectSpec
  import opened Backends

  /** The nodes that are not cooled, in index order. */
  ghost predicate IsReservation(reserved: seq<nat>, s: Snapshot)
    requires SelectSpec.Fits(s)
  {
    (forall j :: 0 <= j < |reserved| ==> reserved[j] < |s.cooled|)
    && (forall j, k :: 0 <= j < k < |reserved| ==> reserved[j] < reserved[k])
    && (forall i :: 0 <= i < |s.cooled| ==> (i in reserved <==> !s.cooled[i]))
  }

  /** The reserve pass after its first `step` nodes. */
  ghost predicate Tracked(s: Snapshot, step: nat, reserved: seq<nat>, best: Option<nat>, bestLoad: nat)
    requires SelectSpec.Fits(s) && step <= |s.count|
  {
    (forall j :: 0 <= j < |reserved| ==> reserved[j] < step)
    && (forall j, k :: 0 <= j < k < |reserved| ==> reserved[j] < reserved[k])
    && (forall i :: 0 <= i < step ==> (i in reserved <==> !s.cooled[i]))
    && (forall i :: 0 <= i < step && !s.cooled[i] ==> bestLoad <= s.count[i])
    && match best
       case None => reserved == [] && bestLoad == USIZE_MAX
       case Some(b) =>
         b < step && b in reserved && bestLoad == s.count[b]
         && forall i :: 0 <= i < b && !s.cooled[i] ==> bestLoad < s.count[i]
  }

  lemma TrackStart(s: Snapshot)
    requires SelectSpec.Fits(s)
    ensures Tracked(s, 0, [], None, USIZE_MAX)
  {}

  lemma TrackVisit(s: Snapshot, step: nat, reserved: seq<nat>, best: Option<nat>, bestLoad: nat)
    requires SelectSpec.Fits(s) && step < |s.count| && s.count[step] < USIZE_MAX
    requires Tracked(s, step, reserved, best, bestLoad)
    ensures step !in reserved
    ensures if s.cooled[step] then Tracked(s, step + 1, reserved, best, bestLoad)
            else if s.count[step] < bestLoad then
              Tracked(s, step + 1, reserved + [step], Some(step), s.count[step])
            else Tracked(s, step + 1, reserved + [step], best, bestLoad)
  {
    assert forall i :: i in reserved + [step] <==> i in reserved || i == step;
  }

  lemma TrackEnd(s: Snapshot, reserved: seq<nat>, best: Option<nat>, bestLoad: nat)
    requires SelectSpec.Fits(s) && Tracked(s, |s.count|, reserved, best, bestLoad)
    ensures IsReservation(reserved, s)
    ensures match best
            case None => reserved == []
            case Some(b) => b in reserved && IsLeastLoaded(s, b)
  {}

  class PriorityFreeBalancer {
    const nodes: seq<BackendNode>
    var allCooledFallbacks: nat

    ghost predicate Valid() {
      |nodes| >= 1 && forall i, j :: 0 <= i < j < |nodes| ==> nodes[i] != nodes[j]
    }

    /** An empty list is refused; a config builds each node anew. */
    constructor (nodes: seq<BackendNode>)
      requires |nodes| >= 1 && forall i, j :: 0 <= i < j < |nodes| ==> nodes[i] != nodes[j]
      ensures Valid() && this.nodes == nodes && allCooledFallbacks == 0
    {
      this.nodes := nodes;
      allCooledFallbacks := 0;
    }

    ghost function Loads(): (r: seq<nat>)
      reads nodes
      ensures |r| == |nodes| && forall i :: 0 <= i < |nodes| ==> r[i] == nodes[i].activeRequests
    {
      seq(|nodes|, i requires 0 <= i < |nodes| reads nodes => nodes[i].activeRequests)
    }

    ghost function Now(now: Instant): (s: Snapshot)
      reads nodes
      requires |nodes| >= 1
      ensures SelectSpec.Fits(s) && s.count == Loads()
      ensures forall i :: 0 <= i < |nodes| ==>
        s.cooled[i] == nodes[i].InCooldown(now) && s.until[i] == nodes[i].cooldownUntil
    {
      Snapshot(
        Loads(),
        seq(|nodes|, i requires 0 <= i < |nodes| reads nodes => nodes[i].InCooldown(now)),
        seq(|nodes|, i requires 0 <= i < |nodes| reads nodes => nodes[i].cooldownUntil as int))
    }

    /** First pass: claim the first node that is neither cooled nor busy. */
    method ClaimFree(now: Instant) returns (claimed: Option<nat>)
      requires Valid()
      modifies nodes`activeRequests
      ensures claimed.Some? ==>
        claimed.value < |nodes| && IsFirstFree(old(Now(now)), claimed.value) && !nodes[claimed.value].InCooldown(now)
        && Loads() == old(Loads())[claimed.value := 1]
      ensures claimed.None? ==> NobodyFree(Now(now)) && Now(now) == old(Now(now))
    {
      hide Now, Loads;
      ghost var was := Now(now);
      var n := |nodes|;
      var step := 0;
      while step < n
        invariant step <= n
        invariant forall i :: 0 <= i < n ==> nodes[i].activeRequests == was.count[i]
        invariant forall i :: 0 <= i < step ==> !IsFree(was, i)
      {
        FromZeroIsIdentity(n, step);
        var node := nodes[CandidateAt(n, 0, step)];
        if !node.InCooldown(now) && node.activeRequests == 0 {
          node.activeRequests := 1;
          assert IsFree(was, step);
          return Some(step);
        }
        step := step + 1;
      }
      assert Now(now).count == was.count && Now(now).cooled == was.cooled && Now(now).until == was.until;
      return None;
    }

    /** Second pass: reserve every node that is not cooled, keeping the first with
        the least load. */
    method ReserveAll(now: Instant) returns (reserved: seq<nat>, best: Option<nat>)
      requires Valid() && forall i :: 0 <= i < |nodes| ==> nodes[i].activeRequests < USIZE_MAX
      modifies nodes`activeRequests
      ensures IsReservation(reserved, old(Now(now)))
      ensures forall i :: 0 <= i < |nodes| ==>
        nodes[i].activeRequests == old(Now(now)).count[i] + if i in reserved then 1 else 0
      ensures best.None? ==> reserved == []
      ensures best.Some? ==> best.value in reserved && IsLeastLoaded(old(Now(now)), best.value)
    {
      hide Now, Loads, Valid, Tracked;
      AreDistinct();
      ghost var was := Now(now);
      TrackStart(was);
      var n := |nodes|;
      reserved := [];
      best := None;
      var bestLoad := USIZE_MAX;
      var step := 0;
      while step < n
        invariant step <= n && Tracked(was, step, reserved, best, bestLoad)
        invariant forall i :: 0 <= i < n ==>
          nodes[i].activeRequests == was.count[i] + if i in reserved then 1 else 0
      {
        FromZeroIsIdentity(n, step);
        var idx := CandidateAt(n, 0, step);
        var node := nodes[idx];
        assert was.cooled[idx] == node.InCooldown(now);
        TrackVisit(was, step, reserved, best, bestLoad);
        if !node.InCooldown(now) {
          var load := node.activeRequests;
          node.activeRequests := load + 1;
          reserved := reserved + [idx];
          if load < bestLoad {
            best := Some(idx);
            bestLoad := load;
          }
        }
        step := step + 1;
      }
      TrackEnd(was, reserved, best, bestLoad);
    }

    lemma AreDistinct()
      requires Valid()
      ensures |nodes| >= 1 && forall i, j :: 0 <= i < |nodes| && 0 <= j < |nodes| && i != j ==> nodes[i] != nodes[j]
    {}

    /** Every reserved node but the winner gives its reservation back. */
    method ReleaseLosers(reserved: seq<nat>, best: nat)
      requires Valid() && best in reserved
      requires forall j :: 0 <= j < |reserved| ==> reserved[j] < |nodes|
      requires forall j, k :: 0 <= j < k < |reserved| ==> reserved[j] < reserved[k]
      requires forall j :: 0 <= j < |reserved| ==> nodes[reserved[j]].activeRequests >= 1
      modifies nodes`activeRequests
      ensures forall i :: 0 <= i < |nodes| ==>
        nodes[i].activeRequests == old(nodes[i].activeRequests) - if i in reserved && i != best then 1 else 0
    {
      var p := 0;
      while p < |reserved|
        invariant p <= |reserved|
        invariant forall i :: 0 <= i < |nodes| ==>
          nodes[i].activeRequests == old(nodes[i].activeRequests) - if i in reserved[..p] && i != best then 1 else 0
      {
        var idx := reserved[p];
        assert idx !in reserved[..p];
        assert reserved[..p + 1] == reserved[..p] + [idx];
        if idx != best {
          nodes[idx].activeRequests := nodes[idx].activeRequests - 1;
        }
        p := p + 1;
      }
      assert reserved[..p] == reserved;
    }

    /** The reserve pass and the release of its losers: one claim, unless every
        node is cooled. */
    method ClaimReserved(now: Instant) returns (claimed: Option<nat>)
      requires Valid() && forall i :: 0 <= i < |nodes| ==> nodes[i].activeRequests < USIZE_MAX
      modifies nodes`activeRequests
      ensures claimed.Some? ==>
        claimed.value < |nodes| && IsLeastLoaded(old(Now(now)), claimed.value) && !nodes[claimed.value].InCooldown(now)
        && Loads() == old(Loads())[claimed.value := old(Loads())[claimed.value] + 1]
      ensures claimed.None? ==>
        Loads() == old(Loads()) && forall i :: 0 <= i < |nodes| ==> nodes[i].InCooldown(now)
    {
      hide Now, Loads, Valid, IsLeastLoaded, IsReservation;
      AreDistinct();
      ghost var was := Now(now);
      var reserved, best := ReserveAll(now);
      ReservationFacts(reserved, was);
      if best.None? {
        assert forall i :: 0 <= i < |nodes| ==> was.cooled[i] == nodes[i].InCooldown(now);
        assert Loads() == was.count;
        return None;
      }
      ReleaseLosers(reserved, best.value);
      LoadsRaised(was.count, best.value);
      return best;
    }

    lemma LoadsRaised(count: seq<nat>, best: nat)
      requires |count| == |nodes| && best < |nodes|
      requires forall i :: 0 <= i < |nodes| ==>
        nodes[i].activeRequests == count[i] + if i == best then 1 else 0
      ensures Loads() == count[best := count[best] + 1]
    {
      hide Loads;
    }

    lemma ReservationFacts(reserved: seq<nat>, s: Snapshot)
      requires SelectSpec.Fits(s) && IsReservation(reserved, s)
      ensures forall j, k :: 0 <= j < k < |reserved| ==> reserved[j] < reserved[k]
      ensures forall j :: 0 <= j < |reserved| ==> reserved[j] < |s.count| && reserved[j] in reserved
      ensures forall i: nat :: i < |s.count| ==> (i in reserved <==> !s.cooled[i])
    {}

    /** Claims the prescribed node and no other: its counter goes up by one, every
        other counter and all health is as before. */
    method Select(now: Instant) returns (chosen: nat)
      requires Valid() && forall i :: 0 <= i < |nodes| ==> nodes[i].activeRequests < USIZE_MAX
      modifies nodes`activeRequests, `allCooledFallbacks
      ensures IsPriorityFree(old(Now(now)), chosen)
      ensures chosen < |nodes| && Loads() == old(Loads())[chosen := old(Loads())[chosen] + 1]
      ensures allCooledFallbacks - old(allCooledFallbacks)
           == if forall i :: 0 <= i < |nodes| ==> nodes[i].InCooldown(now) then 1 else 0
    {
      hide Now, Loads, IsFirstFree, IsLeastLoaded, IsPriorityFree, NobodyFree, Valid;
      AreDistinct();
      ghost var was := Now(now);
      var claimed := ClaimFree(now);
      if claimed.Some? {
        FirstFreeIsChosen(was, claimed.value);
        return claimed.value;
      }
      claimed := ClaimReserved(now);
      if claimed.Some? {
        LeastLoadedIsChosen(was, claimed.value);
        return claimed.value;
      }
      chosen := ClaimSoonest(now);
    }

    /** Every node is cooled: serve from the soonest to recover, and count it. */
    method ClaimSoonest(now: Instant) returns (chosen: nat)
      requires Valid() && forall i :: 0 <= i < |nodes| ==> nodes[i].InCooldown(now)
      modifies nodes`activeRequests, `allCooledFallbacks
      ensures IsPriorityFree(old(Now(now)), chosen)
      ensures chosen < |nodes| && Loads() == old(Loads())[chosen := old(Loads())[chosen] + 1]
      ensures allCooledFallbacks == old(allCooledFallbacks) + 1
    {
      hide Now, Loads, IsPriorityFree, Valid;
      AreDistinct();
      ghost var was := Now(now);
      allCooledFallbacks := allCooledFallbacks + 1;
      chosen := SoonestRecovering(nodes);
      NodesAreSoonest(was, chosen);
      nodes[chosen].activeRequests := nodes[chosen].activeRequests + 1;
      assert Loads() == was.count[chosen := was.count[chosen] + 1];
    }

    lemma NodesAreSoonest(s: Snapshot, b: nat)
      requires SelectSpec.Fits(s) && |s.count| == |nodes| && b < |nodes|
      requires forall i :: 0 <= i < |nodes| ==> s.cooled[i] && s.until[i] == nodes[i].cooldownUntil
      requires forall i :: 0 <= i < |nodes| ==> nodes[b].cooldownUntil <= nodes[i].cooldownUntil
      requires forall i :: 0 <= i < b ==> nodes[b].cooldownUntil < nodes[i].cooldownUntil
      ensures IsPriorityFree(s, b)
    {
      SoonestIsChosen(s, b);
    }
  }
}
