/** Backend nodes and their failure cooldown
    (llama-proxy/src/backends/node.rs:68-114, 185-191), and the node-visit order
    both strategies share (llama-proxy/src/backends/balancer.rs:63-83). */
module Backends {
  /** Nanoseconds; the clock cannot hold a value over `clockMax`. */
  type Instant = nat

  const COOLDOWN_CLAMP_CAP: nat := 24 * 60 * 60 * 1_000_000_000

  // ---------- health ----------

  datatype Health = Health(healthy: bool, until: Instant)

  /** When a failure at `now` ends: an addition the clock cannot hold falls back to
      the cap, and one even the cap overflows to no window at all. */
  function Expiry(clockMax: Instant, now: Instant, cooldown: nat): Instant {
    if now + cooldown <= clockMax then now + cooldown
    else if now + COOLDOWN_CLAMP_CAP <= clockMax then now + COOLDOWN_CLAMP_CAP
    else now
  }

  predicate Excluded(h: Health, now: Instant) {
    !h.healthy && now < h.until
  }

  datatype HealthEvent = Failure(at: Instant, cooldown: nat) | Success

  function AfterEvent(clockMax: Instant, h: Health, e: HealthEvent): Health {
    match e
    case Failure(at, cooldown) => Health(false, Expiry(clockMax, at, cooldown))
    case Success => h.(healthy := true)
  }

  function AfterEvents(clockMax: Instant, h: Health, es: seq<HealthEvent>): Health
    decreases |es|
  {
    if es == [] then h else AfterEvents(clockMax, AfterEvent(clockMax, h, es[0]), es[1..])
  }

  lemma {:induction false} LatestEventDecides(clockMax: Instant, h: Health, es: seq<HealthEvent>, now: Instant)
    requires h.healthy
    ensures Excluded(AfterEvents(clockMax, h, es), now)
       <==> es != [] && es[|es| - 1].Failure?
            && now < Expiry(clockMax, es[|es| - 1].at, es[|es| - 1].cooldown)
  {
    LatestEvent(clockMax, h, es);
  }

  lemma {:induction false} LatestEvent(clockMax: Instant, h: Health, es: seq<HealthEvent>)
    ensures es == [] ==> AfterEvents(clockMax, h, es) == h
    ensures es != [] ==>
      var last := es[|es| - 1];
      var r := AfterEvents(clockMax, h, es);
      r.healthy == last.Success? && (last.Failure? ==> r.until == Expiry(clockMax, last.at, last.cooldown))
    decreases |es|
  {
    if es != [] {
      LatestEvent(clockMax, AfterEvent(clockMax, h, es[0]), es[1..]);
    }
  }

  /** The window never ends past what the clock holds nor later than requested, and it
      is the requested one exactly when the clock can hold that. */
  lemma ExpiryNeverOverflows(clockMax: Instant, now: Instant, cooldown: nat)
    requires now <= clockMax
    ensures now <= Expiry(clockMax, now, cooldown) <= clockMax
    ensures Expiry(clockMax, now, cooldown) <= now + cooldown
    ensures Expiry(clockMax, now, cooldown) == now + cooldown
       <==> now + cooldown <= clockMax
  {}

  /** A window the clock cannot hold is a day long, and where not even that fits it is
      over at once. */
  lemma ClampedExpiry(clockMax: Instant, now: Instant, cooldown: nat)
    requires now + cooldown > clockMax
    ensures Expiry(clockMax, now, cooldown)
         == if now + 86_400 * 1_000_000_000 <= clockMax then now + 86_400 * 1_000_000_000 else now
  {}

  class BackendNode {
    var activeRequests: nat
    var healthy: bool
    var cooldownUntil: Instant

    constructor (now: Instant)
      ensures activeRequests == 0 && GetHealth() == Health(true, now)
    {
      activeRequests := 0;
      healthy := true;
      cooldownUntil := now;
    }

    function GetHealth(): Health
      reads this
    {
      Health(healthy, cooldownUntil)
    }

    method MarkFailed(clockMax: Instant, now: Instant, cooldown: nat)
      modifies this`healthy, this`cooldownUntil
      ensures GetHealth() == AfterEvent(clockMax, old(GetHealth()), Failure(now, cooldown))
    {
      var expiry := now + cooldown;
      if expiry > clockMax {
        expiry := now + COOLDOWN_CLAMP_CAP;
        if expiry > clockMax {
          expiry := now;
        }
      }
      cooldownUntil := expiry;
      healthy := false;
    }

    method MarkHealthy()
      modifies this`healthy
      ensures GetHealth() == AfterEvent(0, old(GetHealth()), Success)
    {
      healthy := true;
    }

    predicate InCooldown(now: Instant)
      reads this
    {
      !healthy && now < cooldownUntil
    }
  }

  // ---------- when all are cooled ----------

  /** The node whose window ends first; the node list is never empty. */
  method SoonestRecovering(nodes: seq<BackendNode>) returns (best: nat)
    requires |nodes| >= 1
    ensures best < |nodes|
    ensures forall i :: 0 <= i < |nodes| ==> nodes[best].cooldownUntil <= nodes[i].cooldownUntil
    ensures forall i :: 0 <= i < best ==> nodes[best].cooldownUntil < nodes[i].cooldownUntil
  {
    best := 0;
    var k := 1;
    while k < |nodes|
      invariant best < k <= |nodes|
      invariant forall i :: 0 <= i < k ==> nodes[best].cooldownUntil <= nodes[i].cooldownUntil
      invariant forall i :: 0 <= i < best ==> nodes[best].cooldownUntil < nodes[i].cooldownUntil
    {
      if nodes[k].cooldownUntil < nodes[best].cooldownUntil {
        best := k;
      }
      k := k + 1;
    }
  }

  // ---------- the visit order ----------

  /** `candidate_order`: the index visited at `step`, starting from `start`. */
  function CandidateAt(n: nat, start: nat, step: nat): (i: nat)
    requires n > 0 && step < n
    ensures i < n
  {
    (start % n + step) % n
  }

  function StepOf(n: nat, start: nat, i: nat): (step: nat)
    requires n > 0 && i < n
    ensures step < n
  {
    if i >= start % n then i - start % n else i + n - start % n
  }

  /** The walk visits every index exactly once, whatever the start. */
  lemma CandidateOrderIsPermutation(n: nat, start: nat)
    requires n > 0
    ensures forall step: nat :: step < n ==> StepOf(n, start, CandidateAt(n, start, step)) == step
    ensures forall i: nat :: i < n ==> CandidateAt(n, start, StepOf(n, start, i)) == i
  {
    forall step: nat | step < n
      ensures StepOf(n, start, CandidateAt(n, start, step)) == step
    {
      WrapOnce(n, start % n + step);
    }
    forall i: nat | i < n
      ensures CandidateAt(n, start, StepOf(n, start, i)) == i
    {
      WrapOnce(n, start % n + StepOf(n, start, i));
    }
  }

  lemma WrapOnce(n: nat, x: nat)
    requires n > 0 && x < 2 * n
    ensures x % n == if x < n then x else x - n
  {
    if x >= n {
      assert x == n + (x - n);
      assert (x - n) % n == x - n;
    }
  }

  lemma FromZeroIsIdentity(n: nat, step: nat)
    requires n > 0 && step < n
    ensures CandidateAt(n, 0, step) == step
  {
    WrapOnce(n, 0 % n + step);
  }
}
