/** Safety and progress of the selection protocol over all its runs. */
module SelectProtocolProofs {
  import opened Options
  import opened Machine
  import opened SelectProtocol

  // ---------- counting holders ----------

  ghost function One(p: bool): nat {
    if p then 1 else 0
  }

  lemma {:induction false} ReservedUpdate(ts: seq<Thread>, k: nat, t: Thread, i: nat)
    requires k < |ts|
    ensures Reserved(ts[k := t], i) + One(Holds(ts[k], i)) == Reserved(ts, i) + One(Holds(t, i))
    decreases k
  {
    hide Holds;
    if k == 0 {
      assert ts[0 := t][1..] == ts[1..];
    } else {
      ReservedUpdate(ts[1..], k - 1, t, i);
      assert ts[k := t][1..] == ts[1..][k - 1 := t];
    }
  }

  lemma {:induction false} ReservedAt(ts: seq<Thread>, k: nat, i: nat)
    requires k < |ts| && Holds(ts[k], i)
    ensures Reserved(ts, i) >= 1
    decreases k
  {
    hide Holds;
    if k > 0 {
      ReservedAt(ts[1..], k - 1, i);
    }
  }

  lemma {:induction false} ClaimsUpdate(cs: seq<Claim>, k: nat, c: Claim, i: nat)
    requires k < |cs| && c.node == cs[k].node && c.origin == cs[k].origin
    ensures ClaimsOn(cs[k := c], i) + One(cs[k].node == i && cs[k].Live())
         == ClaimsOn(cs, i) + One(c.node == i && c.Live())
    ensures CasClaimsOn(cs[k := c], i) + One(cs[k].node == i && cs[k].Live() && cs[k].origin.ByCas?)
         == CasClaimsOn(cs, i) + One(c.node == i && c.Live() && c.origin.ByCas?)
    decreases k
  {
    if k == 0 {
      assert cs[0 := c][1..] == cs[1..];
    } else {
      ClaimsUpdate(cs[1..], k - 1, c, i);
      assert cs[k := c][1..] == cs[1..][k - 1 := c];
    }
  }

  lemma {:induction false} ClaimsAppend(cs: seq<Claim>, c: Claim, i: nat)
    ensures ClaimsOn(cs + [c], i) == ClaimsOn(cs, i) + One(c.node == i && c.Live())
    ensures CasClaimsOn(cs + [c], i) == CasClaimsOn(cs, i) + One(c.node == i && c.Live() && c.origin.ByCas?)
    decreases |cs|
  {
    if cs == [] {
      assert [c][1..] == [];
    } else {
      ClaimsAppend(cs[1..], c, i);
      assert (cs + [c])[1..] == cs[1..] + [c];
    }
  }

  lemma {:induction false} ClaimsAt(cs: seq<Claim>, k: nat)
    requires k < |cs| && cs[k].Live()
    ensures ClaimsOn(cs, cs[k].node) >= 1
    decreases k
  {
    if k > 0 {
      ClaimsAt(cs[1..], k - 1);
    }
  }

  lemma {:induction false} CasAmongClaims(cs: seq<Claim>, i: nat)
    ensures CasClaimsOn(cs, i) <= ClaimsOn(cs, i)
    decreases |cs|
  {
    if cs != [] {
      CasAmongClaims(cs[1..], i);
    }
  }

  // ---------- one thread's step ----------

  /** The least-load bookkeeping survives a reservation. */
  lemma ReserveKeepsBest(t: Thread, k: nat, load: Usize)
    requires BestIsLeast(t) && |t.loads| == |t.reserved|
    ensures BestIsLeast(Reserve(t, k, load))
  {
    var t' := Reserve(t, k, load);
    if load < t.bestLoad {
      assert IsFirstLeast(t', k, |t.reserved|) by {
        if t.best.Some? {
          var j :| IsFirstLeast(t, t.best.value, j);
        }
      }
    } else if t.best.Some? {
      var j :| IsFirstLeast(t, t.best.value, j);
      assert IsFirstLeast(t', t.best.value, j);
    }
  }

  /** Whatever the shared state is, a thread's own step keeps its locals in order. */
  lemma OwnStepKeepsThreadInv(s: State, t: Thread)
    requires Fits(s) && ThreadFits(t, |s.count|) && !t.pc.Idle? && ThreadInv(t)
    ensures ThreadInv(OwnStep(s, t).thread)
  {
    hide BestIsLeast;
    var t' := OwnStep(s, t).thread;
    if t.pc.AddTry? {
      ReserveKeepsBest(t, t.pc.k, s.count[t.pc.k]);
    } else if t.pc.CasHealth? {
      FreshBest(t);
    } else if !t'.pc.Idle? {
      SameBest(t, t');
    }
  }

  lemma FreshBest(t: Thread)
    ensures BestIsLeast(EnterAddPass(t))
  {}

  lemma SameBest(t: Thread, t': Thread)
    requires t'.reserved == t.reserved && t'.loads == t.loads && t'.best == t.best && t'.bestLoad == t.bestLoad
    ensures BestIsLeast(t') == BestIsLeast(t)
  {
    if t.best.Some? {
      forall j
        ensures IsFirstLeast(t', t.best.value, j) == IsFirstLeast(t, t.best.value, j)
      {}
    }
  }

  lemma BestIsReserved(t: Thread)
    requires BestIsLeast(t) && t.best.Some?
    ensures t.best.value in t.reserved
  {
    var j :| IsFirstLeast(t, t.best.value, j);
  }

  /** A select without a best candidate holds no reservation. */
  lemma NoBestNoReservation(t: Thread)
    requires BestIsLeast(t) && t.best.None? && LoadsBelowMax(t) && |t.loads| == |t.reserved|
    ensures t.reserved == []
  {
    if t.loads != [] {
      FirstLoadBelowMax(t);
    }
  }

  lemma FirstLoadBelowMax(t: Thread)
    requires LoadsBelowMax(t) && t.loads != []
    ensures !(forall j :: 0 <= j < |t.loads| ==> t.loads[j] == USIZE_MAX)
  {
    assert t.loads[0] < USIZE_MAX;
  }

  ghost predicate Balanced(s: State, t: Thread, r: Effect, i: nat)
    requires i < |s.count| == |r.count|
  {
    var taken := One(Holds(r.thread, i)) + One(r.claim.Some? && r.claim.value.node == i);
    r.count[i] + One(Holds(t, i)) == s.count[i] + taken
  }

  /** A step moves as much into or out of each counter as the thread comes to hold
      or ceases to hold there, a new claim counting as held. */
  lemma EffectBalances(s: State, t: Thread, i: nat)
    requires Fits(s) && ThreadFits(t, |s.count|) && !t.pc.Idle? && ThreadInv(t) && LoadsBelowMax(t)
    requires i < |s.count| && s.count[i] < USIZE_MAX && (Holds(t, i) ==> s.count[i] >= 1)
    ensures Balanced(s, t, OwnStep(s, t), i)
  {
    hide BestIsLeast, Holds, OwnStep;
    if t.pc.Release? {
      BestIsReserved(t);
      ReleaseBalances(s, t, i);
    } else if InFallback(t.pc) {
      NoBestNoReservation(t);
      FallbackBalances(s, t, i);
    } else if InAddPass(t.pc) {
      AddBalances(s, t, i);
    } else {
      CasBalances(s, t, i);
    }
  }

  lemma CasBalances(s: State, t: Thread, i: nat)
    requires Fits(s) && ThreadFits(t, |s.count|) && (t.pc.CasHealth? || t.pc.CasExpiry? || t.pc.CasTry?)
    requires i < |s.count|
    ensures Balanced(s, t, OwnStep(s, t), i)
  {}

  lemma AddBalances(s: State, t: Thread, i: nat)
    requires Fits(s) && ThreadFits(t, |s.count|) && InAddPass(t.pc) && ThreadInv(t)
    requires i < |s.count| && s.count[i] < USIZE_MAX
    ensures Balanced(s, t, OwnStep(s, t), i)
  {
    hide BestIsLeast;
    if t.pc.AddHealth? && t.pc.k == |s.count| {
      assert t.reserved[0..] == t.reserved;
      if t.best.None? {
        assert OwnStep(s, t).thread.pc.Scan?;
      }
    }
  }

  lemma FallbackBalances(s: State, t: Thread, i: nat)
    requires Fits(s) && ThreadFits(t, |s.count|) && InFallback(t.pc) && t.reserved == []
    requires i < |s.count| && s.count[i] < USIZE_MAX
    ensures Balanced(s, t, OwnStep(s, t), i)
  {}

  lemma ReleaseBalances(s: State, t: Thread, i: nat)
    requires Fits(s) && ThreadFits(t, |s.count|) && ThreadInv(t) && t.pc.Release? && t.best.value in t.reserved
    requires i < |s.count| && (Holds(t, i) ==> s.count[i] >= 1)
    ensures Balanced(s, t, OwnStep(s, t), i)
  {
    hide BestIsLeast;
    var p, xs := t.pc.p, t.reserved;
    if p < |xs| {
      assert xs[p..] == [xs[p]] + xs[p + 1..];
      assert xs[p] !in xs[p + 1..] by {
        assert forall k :: p + 1 <= k < |xs| ==> xs[p] < xs[k];
      }
      assert xs[p] in xs;
    } else {
      assert xs[p..] == [];
    }
  }

  // ---------- every step keeps the invariant ----------

  lemma ThreadOfState(s: State, t: nat)
    requires Fits(s) && t < |s.threads|
    ensures ThreadFits(s.threads[t], |s.count|)
  {}

  lemma OwnKeepsConserved(s: State, t: nat)
    requires Inv(s) && Room(s) && Enabled(s, Own(t))
    ensures Conserved(Exec(s, Own(t)))
  {
    hide OwnStep, Holds, ThreadInv, LoadsBelowMax, Fits, ThreadFits;
    var th := s.threads[t];
    ThreadOfState(s, t);
    var r := OwnStep(s, th);
    var s' := Exec(s, Own(t));
    forall i | 0 <= i < |s.count|
      ensures s'.count[i] == Holders(s', i)
    {
      if Holds(th, i) {
        ReservedAt(s.threads, t, i);
      }
      EffectBalances(s, th, i);
      ReservedUpdate(s.threads, t, r.thread, i);
      if r.claim.Some? {
        ClaimsAppend(s.claims, Born(r.claim.value, t), i);
      }
    }
  }

  /** A compare-and-swap that succeeds finds no claim and no reservation on its node. */
  lemma CasFindsNobody(s: State, t: nat)
    requires Inv(s) && Enabled(s, Own(t))
    requires var r := OwnStep(s, s.threads[t]); r.claim.Some? && r.claim.value.origin.ByCas?
    ensures var k := OwnStep(s, s.threads[t]).claim.value.node;
            ClaimsOn(s.claims, k) == 0 && Reserved(s.threads, k) == 0
  {
    hide Holds, ThreadInv;
  }

  lemma OwnKeepsOneCasClaim(s: State, t: nat)
    requires Inv(s) && Room(s) && Enabled(s, Own(t))
    ensures OneCasClaim(Exec(s, Own(t)))
  {
    hide OwnStep, Holds, ThreadInv, LoadsBelowMax, Fits, ThreadFits;
    ThreadOfState(s, t);
    var r := OwnStep(s, s.threads[t]);
    var s' := Exec(s, Own(t));
    forall i | 0 <= i < |s.count|
      ensures CasClaimsOn(s'.claims, i) <= 1
    {
      if r.claim.Some? {
        ClaimsAppend(s.claims, Born(r.claim.value, t), i);
        if r.claim.value.origin.ByCas? {
          CasFindsNobody(s, t);
          CasAmongClaims(s.claims, i);
        }
      }
    }
  }

  lemma OwnStepKeepsLoads(s: State, t: Thread)
    requires Fits(s) && ThreadFits(t, |s.count|) && !t.pc.Idle? && LoadsBelowMax(t)
    requires forall i :: 0 <= i < |s.count| ==> s.count[i] < USIZE_MAX
    ensures LoadsBelowMax(OwnStep(s, t).thread)
  {
    hide OwnStep;
    OwnStepLoads(s, t);
  }

  lemma OwnStepLoads(s: State, t: Thread)
    requires Fits(s) && ThreadFits(t, |s.count|) && !t.pc.Idle?
    ensures var loads := OwnStep(s, t).thread.loads;
            if t.pc.AddTry? then loads == t.loads + [s.count[t.pc.k]] else loads == t.loads || loads == []
  {}

  lemma OwnKeepsInv(s: State, t: nat)
    requires Inv(s) && Room(s) && Enabled(s, Own(t))
    ensures Inv(Exec(s, Own(t)))
  {
    hide Holds, ThreadInv, LoadsBelowMax, ThreadFits, ClaimInv, OwnStep;
    OwnKeepsConserved(s, t);
    OwnKeepsOneCasClaim(s, t);
    OwnStepKeepsThreadInv(s, s.threads[t]);
    OwnStepKeepsLoads(s, s.threads[t]);
    var r := OwnStep(s, s.threads[t]);
    if r.claim.Some? {
      NewClaim(Born(r.claim.value, t));
    }
  }

  lemma NewClaim(c: Claim)
    requires c.phase == Held(1)
    ensures ClaimInv(c)
  {}

  lemma StartKeepsInv(s: State, t: nat, now: Instant)
    requires Inv(s) && Enabled(s, Start(t, now))
    ensures Inv(Exec(s, Start(t, now)))
  {
    hide LoadsBelowMax, ThreadFits, ClaimInv, BestIsLeast;
    var blank := Begun(now);
    var s' := Exec(s, Start(t, now));
    assert ThreadInv(blank) && LoadsBelowMax(blank) by {
      NoLoads(blank);
    }
    forall i | 0 <= i < |s.count|
      ensures s'.count[i] == Holders(s', i)
    {
      ReservedUpdate(s.threads, t, blank, i);
    }
  }

  lemma NoLoads(t: Thread)
    requires t.loads == []
    ensures LoadsBelowMax(t)
  {}

  /** A claim that only changes phase, with a counter that changes as it should. */
  lemma PhaseKeepsInv(s: State, c: nat, phase: Phase, s': State)
    requires Inv(s) && Room(s) && c < |s.claims| && Fits(s')
    requires s'.claims == s.claims[c := s.claims[c].(phase := phase)]
    requires s'.threads == s.threads && |s'.count| == |s.count|
    requires ClaimInv(s'.claims[c]) && (s'.claims[c].Live() ==> s.claims[c].Live())
    requires forall i :: 0 <= i < |s.count| ==>
      s'.count[i] + One(s.claims[c].node == i && s.claims[c].Live())
      == s.count[i] + One(s.claims[c].node == i && s'.claims[c].Live())
    ensures Inv(s')
  {
    hide Holds, ThreadInv, LoadsBelowMax, ThreadFits, ClaimInv;
    forall i | 0 <= i < |s.count|
      ensures s'.count[i] == Holders(s', i) && CasClaimsOn(s'.claims, i) <= 1
    {
      ClaimsUpdate(s.claims, c, s'.claims[c], i);
    }
  }

  /** The `fetch_sub` of a last drop finds a positive counter: the saturating undo
      never runs. */
  lemma DropFindsPositive(s: State, c: nat)
    requires Inv(s) && Enabled(s, FinishDrop(c))
    ensures s.claims[c].phase.Dropping? && s.count[s.claims[c].node] >= 1
    ensures Exec(s, FinishDrop(c)).claims[c].phase == Released
  {
    hide Holds, ThreadInv, LoadsBelowMax, ThreadFits;
    assert ClaimInv(s.claims[c]);
    ClaimsAt(s.claims, c);
  }

  /** Were it to find 0 nevertheless, the undo would put the counter back to 0 rather
      than leave it wrapped. */
  lemma DropSaturates(s: State, c: nat)
    requires Fits(s) && c < |s.claims| && s.claims[c].phase.Dropping? && s.count[s.claims[c].node] == 0
    ensures Enabled(s, FinishDrop(c)) && Enabled(Exec(s, FinishDrop(c)), FinishDrop(c))
    ensures var e := Exec(Exec(s, FinishDrop(c)), FinishDrop(c));
            e.count == s.count && e.claims == s.claims[c := s.claims[c].(phase := Released)] && e.threads == s.threads
  {}

  /** So does each `fetch_sub` that releases a losing reservation. */
  lemma ReleaseFindsPositive(s: State, t: nat)
    requires Inv(s) && t < |s.threads| && s.threads[t].pc.Release?
    requires var th := s.threads[t]; th.pc.p < |th.reserved| && th.reserved[th.pc.p] != th.best.value
    ensures s.count[s.threads[t].reserved[s.threads[t].pc.p]] >= 1
  {
    hide ThreadInv, LoadsBelowMax;
    var th := s.threads[t];
    var i := th.reserved[th.pc.p];
    assert th.reserved[th.pc.p..][0] == i;
    ThreadOfState(s, t);
    ReservedAt(s.threads, t, i);
  }

  lemma ClaimStepKeepsInv(s: State, e: Step)
    requires Inv(s) && Room(s) && Enabled(s, e) && (e.Clone? || e.DropRef? || e.FinishDrop?)
    ensures Inv(Exec(s, e))
  {
    hide Holds, ThreadInv, LoadsBelowMax, ThreadFits;
    var s' := Exec(s, e);
    assert ClaimInv(s.claims[e.c]);
    if e.FinishDrop? {
      DropFindsPositive(s, e.c);
    }
    PhaseKeepsInv(s, e.c, s'.claims[e.c].phase, s');
  }

  lemma HealthKeepsInv(s: State, e: Step)
    requires Inv(s) && Enabled(s, e) && (e.SetHealthy? || e.SetExpiry?)
    ensures Inv(Exec(s, e))
  {
    hide Holds, ThreadInv, LoadsBelowMax, ThreadFits, ClaimInv;
    var s' := Exec(s, e);
    forall i | 0 <= i < |s.count|
      ensures s'.count[i] == Holders(s', i)
    {}
  }

  /** Every step of every thread keeps the invariant. */
  lemma StepKeepsInv(s: State, e: Step)
    requires Inv(s) && Room(s) && Enabled(s, e)
    ensures Inv(Exec(s, e))
  {
    hide Inv, Room, Exec;
    match e
    case Start(t, now) => StartKeepsInv(s, t, now);
    case Own(t) => OwnKeepsInv(s, t);
    case Clone(_) => ClaimStepKeepsInv(s, e);
    case DropRef(_) => ClaimStepKeepsInv(s, e);
    case FinishDrop(_) => ClaimStepKeepsInv(s, e);
    case SetHealthy(_, _) => HealthKeepsInv(s, e);
    case SetExpiry(_, _) => HealthKeepsInv(s, e);
  }

  // ---------- over whole runs ----------

  lemma {:induction false} NothingHeld(ts: seq<Thread>, i: nat)
    requires forall t :: 0 <= t < |ts| ==> ts[t].pc.Idle?
    ensures Reserved(ts, i) == 0
    decreases |ts|
  {
    if ts != [] {
      NothingHeld(ts[1..], i);
    }
  }

  lemma {:induction false} NothingClaimed(cs: seq<Claim>, i: nat)
    requires forall c :: 0 <= c < |cs| ==> cs[c].phase.Released?
    ensures ClaimsOn(cs, i) == 0
    decreases |cs|
  {
    if cs != [] {
      NothingClaimed(cs[1..], i);
    }
  }

  lemma InitInv(s: State)
    requires Init(s)
    ensures Inv(s)
  {
    forall i | 0 <= i < |s.count|
      ensures s.count[i] == Holders(s, i) && CasClaimsOn(s.claims, i) <= 1
    {
      NothingHeld(s.threads, i);
    }
  }

  lemma InitHasNoClaims(s: State)
    requires Init(s)
    ensures Fits(s) && s.claims == []
  {}

  /** In every state that any interleaving of selects, clones, drops and health
      changes can reach: each counter is the number of claims and reservations on
      its node, and at most one live claim per node came from the free-node pass. */
  lemma {:induction false} RunKeepsInv(s: State, steps: seq<Step>)
    requires Inv(s) && EnabledAlong(s, steps) && RoomAlong(s, steps)
    ensures Inv(Run(s, steps))
    decreases |steps|
  {
    hide Inv, Room, Exec, Enabled;
    if steps != [] {
      assert Fits(s) by { InvFits(s); }
      StepKeepsInv(s, steps[0]);
      RunKeepsInv(Exec(s, steps[0]), steps[1..]);
    }
  }

  lemma InvFits(s: State)
    requires Inv(s)
    ensures Fits(s)
  {}

  /** Once no select is running and every guard is gone, every counter is back at 0. */
  lemma CountersReturnToZero(s: State, i: nat)
    requires Inv(s) && i < |s.count|
    requires forall t :: 0 <= t < |s.threads| ==> s.threads[t].pc.Idle?
    requires forall c :: 0 <= c < |s.claims| ==> s.claims[c].phase.Released?
    ensures s.count[i] == 0
  {
    NothingHeld(s.threads, i);
    NothingClaimed(s.claims, i);
  }

  /** Reachable means: from counters at 0, through any run with room. Any with fewer
      than `usize::MAX` selects is one, by RoomFromTheStart. */
  lemma ReachableCountersAreHolders(s: State, steps: seq<Step>, i: nat)
    requires Init(s) && EnabledAlong(s, steps) && RoomAlong(s, steps) && i < |s.count|
    ensures var e := Run(s, steps);
            e.count[i] == ClaimsOn(e.claims, i) + Reserved(e.threads, i)
            && CasClaimsOn(e.claims, i) <= 1
            && (e.count[i] == 0 <==> ClaimsOn(e.claims, i) == 0 && Reserved(e.threads, i) == 0)
  {
    InitInv(s);
    RunKeepsInv(s, steps);
  }

  // ---------- every select makes one claim ----------

  ghost function Starts(steps: seq<Step>): nat {
    if steps == [] then 0 else One(steps[0].Start?) + Starts(steps[1..])
  }

  ghost function UnderWay(ts: seq<Thread>): nat {
    if ts == [] then 0 else One(!ts[0].pc.Idle?) + UnderWay(ts[1..])
  }

  lemma {:induction false} UnderWayUpdate(ts: seq<Thread>, k: nat, t: Thread)
    requires k < |ts|
    ensures UnderWay(ts[k := t]) + One(!ts[k].pc.Idle?) == UnderWay(ts) + One(!t.pc.Idle?)
    decreases k
  {
    if k == 0 {
      assert ts[0 := t][1..] == ts[1..];
    } else {
      UnderWayUpdate(ts[1..], k - 1, t);
      assert ts[k := t][1..] == ts[1..][k - 1 := t];
    }
  }

  lemma StepMakesClaims(s: State, e: Step)
    requires Fits(s) && Enabled(s, e)
    ensures var s' := Exec(s, e);
            |s'.claims| + UnderWay(s'.threads) == |s.claims| + UnderWay(s.threads) + One(e.Start?)
  {
    hide OwnStep, UnderWay;
    match e
    case Start(t, _) => UnderWayUpdate(s.threads, t, Exec(s, e).threads[t]);
    case Own(t) => UnderWayUpdate(s.threads, t, Exec(s, e).threads[t]);
    case _ =>
  }

  /** The claims thread `t` made. */
  ghost function ClaimsBy(cs: seq<Claim>, t: nat): nat {
    if cs == [] then 0 else One(cs[0].maker == t) + ClaimsBy(cs[1..], t)
  }

  ghost function StartsBy(steps: seq<Step>, t: nat): nat {
    if steps == [] then 0 else One(steps[0].Start? && steps[0].t == t) + StartsBy(steps[1..], t)
  }

  ghost function Selecting(s: State, t: nat): nat
    requires t < |s.threads|
  {
    One(!s.threads[t].pc.Idle?)
  }

  lemma {:induction false} ClaimsByAppend(cs: seq<Claim>, c: Claim, t: nat)
    ensures ClaimsBy(cs + [c], t) == ClaimsBy(cs, t) + One(c.maker == t)
    decreases |cs|
  {
    if cs == [] {
      assert [c][1..] == [] && [] + [c] == [c];
    } else {
      ClaimsByAppend(cs[1..], c, t);
      assert (cs + [c])[1..] == cs[1..] + [c];
    }
  }

  lemma {:induction false} ClaimsByUpdate(cs: seq<Claim>, k: nat, c: Claim, t: nat)
    requires k < |cs| && c.maker == cs[k].maker
    ensures ClaimsBy(cs[k := c], t) == ClaimsBy(cs, t)
    decreases k
  {
    if k == 0 {
      assert cs[0 := c][1..] == cs[1..];
    } else {
      ClaimsByUpdate(cs[1..], k - 1, c, t);
      assert cs[k := c][1..] == cs[1..][k - 1 := c];
    }
  }

  lemma StepMakesClaimsBy(s: State, e: Step, t: nat)
    requires Fits(s) && Enabled(s, e) && t < |s.threads|
    ensures ClaimsBy(Exec(s, e).claims, t) + Selecting(Exec(s, e), t)
         == ClaimsBy(s.claims, t) + Selecting(s, t) + One(e.Start? && e.t == t)
  {
    hide OwnStep, ClaimsBy, Fits, ThreadFits;
    match e
    case Own(u) =>
      ThreadOfState(s, u);
      var r := OwnStep(s, s.threads[u]);
      if r.claim.Some? {
        ClaimsByAppend(s.claims, Born(r.claim.value, u), t);
      }
    case Clone(c) => ClaimsByUpdate(s.claims, c, Exec(s, e).claims[c], t);
    case DropRef(c) => ClaimsByUpdate(s.claims, c, Exec(s, e).claims[c], t);
    case FinishDrop(c) => ClaimsByUpdate(s.claims, c, Exec(s, e).claims[c], t);
    case _ =>
  }

  /** The claims a thread has made are the selects it started, but for the one it is
      in: each select makes exactly one claim, at its end, and nothing else makes any. */
  lemma {:induction false} EverySelectMakesOneClaim(s: State, steps: seq<Step>, t: nat)
    requires Fits(s) && EnabledAlong(s, steps) && t < |s.threads|
    ensures var e := Run(s, steps);
            ClaimsBy(e.claims, t) + Selecting(e, t) == ClaimsBy(s.claims, t) + Selecting(s, t) + StartsBy(steps, t)
    decreases |steps|
  {
    hide Exec, Enabled, Fits, ClaimsBy, Selecting;
    if steps != [] {
      StepMakesClaimsBy(s, steps[0], t);
      EverySelectMakesOneClaim(Exec(s, steps[0]), steps[1..], t);
    }
  }

  // ---------- room ----------

  lemma {:induction false} ClaimsAtMost(cs: seq<Claim>, i: nat)
    ensures ClaimsOn(cs, i) <= |cs|
    decreases |cs|
  {
    if cs != [] {
      ClaimsAtMost(cs[1..], i);
    }
  }

  lemma {:induction false} ReservedAtMost(ts: seq<Thread>, i: nat)
    ensures Reserved(ts, i) <= UnderWay(ts)
    decreases |ts|
  {
    if ts != [] {
      ReservedAtMost(ts[1..], i);
    }
  }

  /** A select holds a node at most once, and so does its claim: no node has more
      holders than selects were ever started. */
  lemma {:induction false} FewSelectsLeaveRoom(s: State, steps: seq<Step>)
    requires Fits(s) && EnabledAlong(s, steps)
    requires |s.claims| + UnderWay(s.threads) + Starts(steps) < USIZE_MAX
    ensures RoomAlong(s, steps)
    decreases |steps|
  {
    hide Exec, Enabled, Fits, UnderWay, ClaimsOn, Reserved;
    if steps != [] {
      forall i | 0 <= i < |s.count| ensures Holders(s, i) < USIZE_MAX {
        ClaimsAtMost(s.claims, i);
        ReservedAtMost(s.threads, i);
      }
      StepMakesClaims(s, steps[0]);
      FewSelectsLeaveRoom(Exec(s, steps[0]), steps[1..]);
    }
  }

  lemma {:induction false} NoneUnderWay(ts: seq<Thread>)
    requires forall t :: 0 <= t < |ts| ==> ts[t].pc.Idle?
    ensures UnderWay(ts) == 0
    decreases |ts|
  {
    if ts != [] {
      assert forall t :: 0 <= t < |ts[1..]| ==> ts[1..][t] == ts[t + 1];
      NoneUnderWay(ts[1..]);
    }
  }

  /** From the start: with fewer than `usize::MAX` selects in all there is room
      throughout, whatever the interleaving. */
  lemma RoomFromTheStart(s: State, steps: seq<Step>)
    requires Init(s) && EnabledAlong(s, steps) && Starts(steps) < USIZE_MAX
    ensures RoomAlong(s, steps)
  {
    NoneUnderWay(s.threads);
    FewSelectsLeaveRoom(s, steps);
  }

  // ---------- a claim is released once, at its last clone's drop ----------

  ghost function Clones(steps: seq<Step>, c: nat): nat {
    if steps == [] then 0 else One(steps[0] == Clone(c)) + Clones(steps[1..], c)
  }

  ghost function Drops(steps: seq<Step>, c: nat): nat {
    if steps == [] then 0 else One(steps[0] == DropRef(c)) + Drops(steps[1..], c)
  }

  ghost function Subtractions(steps: seq<Step>, c: nat): nat {
    if steps == [] then 0 else One(steps[0] == FinishDrop(c)) + Subtractions(steps[1..], c)
  }

  /** The guard clones of claim `c`; a claim yet to be made will be born with one. */
  ghost function Refs(s: State, c: nat): nat {
    if c >= |s.claims| then 1
    else if s.claims[c].phase.Held? then s.claims[c].phase.refs
    else 0
  }

  ghost predicate IsReleased(s: State, c: nat) {
    c < |s.claims| && s.claims[c].phase.Released?
  }

  lemma StepCountsRefs(s: State, e: Step, c: nat)
    requires Inv(s) && Enabled(s, e)
    ensures var s' := Exec(s, e);
            Refs(s', c) + One(e == DropRef(c)) == Refs(s, c) + One(e == Clone(c))
            && One(IsReleased(s', c)) == One(IsReleased(s, c)) + One(e == FinishDrop(c))
  {
    hide OwnStep, Holds, ThreadsInv, Conserved, OneCasClaim;
    if e.FinishDrop? {
      DropFindsPositive(s, e.c);
    }
    if c < |s.claims| {
      assert ClaimInv(s.claims[c]);
    }
  }

  lemma {:induction false} RunCountsRefs(s: State, steps: seq<Step>, c: nat)
    requires Inv(s) && EnabledAlong(s, steps) && RoomAlong(s, steps)
    ensures var s' := Run(s, steps);
            Refs(s', c) + Drops(steps, c) == Refs(s, c) + Clones(steps, c)
            && One(IsReleased(s', c)) == One(IsReleased(s, c)) + Subtractions(steps, c)
    decreases |steps|
  {
    hide Inv, Room, Exec, Enabled, Refs, IsReleased;
    if steps != [] {
      InvFits(s);
      StepCountsRefs(s, steps[0], c);
      StepKeepsInv(s, steps[0]);
      RunCountsRefs(Exec(s, steps[0]), steps[1..], c);
    }
  }

  /** In a run from the start each claim's counter is subtracted from at most once,
      and that only after the original guard and every clone of it were dropped. */
  lemma ReleasedOnceAtLastDrop(s: State, steps: seq<Step>, c: nat)
    requires Init(s) && EnabledAlong(s, steps) && RoomAlong(s, steps)
    ensures var s' := Run(s, steps);
            Subtractions(steps, c) == One(IsReleased(s', c))
            && (IsReleased(s', c) ==> Drops(steps, c) == 1 + Clones(steps, c))
            && (c < |s'.claims| && s'.claims[c].Live() ==> Subtractions(steps, c) == 0)
            && (c < |s'.claims| && s'.claims[c].phase.Held? ==> Drops(steps, c) < 1 + Clones(steps, c))
  {
    hide Exec, Enabled, Run, EnabledAlong, RoomAlong, ThreadsInv, Conserved, OneCasClaim, Init;
    InitHasNoClaims(s);
    InitInv(s);
    RunCountsRefs(s, steps, c);
    RunKeepsInv(s, steps);
    var s' := Run(s, steps);
    if c < |s'.claims| {
      assert ClaimInv(s'.claims[c]);
    }
  }

  // ---------- the winner ----------

  /** The node a select keeps after the reserve pass is the first of the nodes it
      reserved with the least load at arrival, however the others moved meanwhile. */
  lemma WinnerHadLeastLoad(s: State, t: Thread)
    requires Fits(s) && ThreadFits(t, |s.count|) && !t.pc.Idle? && ThreadInv(t)
    requires var r := OwnStep(s, t); r.claim.Some? && r.claim.value.origin.ByReservation?
    ensures var b := OwnStep(s, t).claim.value.node;
            exists j :: 0 <= j < |t.reserved| && t.reserved[j] == b
              && (forall k :: 0 <= k < |t.loads| ==> t.loads[j] <= t.loads[k])
              && (forall k :: 0 <= k < j ==> t.loads[j] < t.loads[k])
  {
    hide OwnStep;
    KeptIsBest(s, t);
    var j :| IsFirstLeast(t, t.best.value, j);
  }

  lemma KeptIsBest(s: State, t: Thread)
    requires Fits(s) && ThreadFits(t, |s.count|) && !t.pc.Idle? && ThreadInv(t)
    requires OwnStep(s, t).claim.Some? && OwnStep(s, t).claim.value.origin.ByReservation?
    ensures t.pc.Release? && t.best == Some(OwnStep(s, t).claim.value.node)
  {
    hide BestIsLeast, Increasing;
  }

  /** The reserve pass ends in the all-cooled fallback exactly when every load it
      found was `usize::MAX`: then, and only then, reservations would leak. */
  lemma FallbackOnlyWithoutLoads(s: State, t: Thread)
    requires Fits(s) && ThreadFits(t, |s.count|) && t.pc == AddHealth(|s.count|) && ThreadInv(t)
    ensures InFallback(OwnStep(s, t).thread.pc) <==> forall j :: 0 <= j < |t.loads| ==> t.loads[j] == USIZE_MAX
    ensures LoadsBelowMax(t) && InFallback(OwnStep(s, t).thread.pc) ==> t.reserved == []
  {
    if t.best.Some? {
      var j :| IsFirstLeast(t, t.best.value, j);
    } else if LoadsBelowMax(t) {
      NoBestNoReservation(t);
    }
  }

  // ---------- progress ----------

  /** An upper bound on the steps a thread still takes in its select. */
  function Measure(n: nat, t: Thread): int {
    match t.pc
    case Idle => 0
    case CasHealth(k) => 3 * (n - k) + 1 + 4 * n + 3
    case CasExpiry(k) => 3 * (n - k) + 4 * n + 3
    case CasTry(k) => 3 * (n - k) - 1 + 4 * n + 3
    case AddHealth(k) => 3 * (n - k) + n + 3
    case AddExpiry(k) => 3 * (n - k) - 1 + n + 3
    case AddTry(k) => 3 * (n - k) - 2 + n + 3
    case Release(p) => |t.reserved| - p + 1
    case Scan(k, _, _) => n - k + 2
    case FallbackAdd(_) => 1
  }

  ghost function OwnSteps(steps: seq<Step>, t: nat): nat {
    if steps == [] then 0 else One(steps[0] == Own(t)) + OwnSteps(steps[1..], t)
  }

  lemma OwnStepDecreases(s: State, t: Thread)
    requires Fits(s) && ThreadFits(t, |s.count|) && !t.pc.Idle? && ThreadInv(t)
    ensures 0 <= Measure(|s.count|, OwnStep(s, t).thread) < Measure(|s.count|, t)
  {
    hide OwnStep, Measure, BestIsLeast;
    if InAddPass(t.pc) {
      AddDecreases(s, t);
    } else if t.pc.Release? || InFallback(t.pc) {
      LastDecreases(s, t);
    } else {
      CasDecreases(s, t);
    }
  }

  lemma CasDecreases(s: State, t: Thread)
    requires Fits(s) && ThreadFits(t, |s.count|) && (t.pc.CasHealth? || t.pc.CasExpiry? || t.pc.CasTry?)
    ensures 0 <= Measure(|s.count|, OwnStep(s, t).thread) < Measure(|s.count|, t)
  {}

  lemma AddDecreases(s: State, t: Thread)
    requires Fits(s) && ThreadFits(t, |s.count|) && InAddPass(t.pc) && |t.reserved| <= t.pc.k
    ensures 0 <= Measure(|s.count|, OwnStep(s, t).thread) < Measure(|s.count|, t)
  {}

  lemma LastDecreases(s: State, t: Thread)
    requires Fits(s) && ThreadFits(t, |s.count|) && (t.pc.Release? || InFallback(t.pc))
    requires t.pc.Release? ==> t.best.Some?
    ensures 0 <= Measure(|s.count|, OwnStep(s, t).thread) < Measure(|s.count|, t)
  {}

  ghost predicate AllThreadsInv(s: State) {
    forall t :: 0 <= t < |s.threads| ==> ThreadInv(s.threads[t])
  }

  lemma StepKeepsThreads(s: State, e: Step)
    requires Fits(s) && AllThreadsInv(s) && Enabled(s, e)
    ensures AllThreadsInv(Exec(s, e))
  {
    hide OwnStep, ThreadFits, BestIsLeast;
    if e.Own? {
      ThreadOfState(s, e.t);
      OwnStepKeepsThreadInv(s, s.threads[e.t]);
    } else if e.Start? {
      assert ThreadInv(Begun(e.now));
    }
  }

  /** Whatever all other threads do in between, a select ends after at most
      7 n + 4 steps of its own over n nodes. No room is assumed. */
  lemma {:induction false} SelectIsWaitFree(s: State, steps: seq<Step>, t: nat)
    requires Fits(s) && AllThreadsInv(s) && t < |s.threads| && EnabledAlong(s, steps)
    requires forall k :: 0 <= k < |steps| ==> !(steps[k].Start? && steps[k].t == t)
    ensures OwnSteps(steps, t) + Measure(|s.count|, Run(s, steps).threads[t]) <= Measure(|s.count|, s.threads[t])
    decreases |steps|
  {
    hide OwnStep, ThreadFits, ThreadInv, Measure;
    if steps != [] {
      var e := steps[0];
      if e == Own(t) {
        ThreadOfState(s, t);
        OwnStepDecreases(s, s.threads[t]);
      }
      StepKeepsThreads(s, e);
      SelectIsWaitFree(Exec(s, e), steps[1..], t);
    }
  }

  lemma SelectBound(n: nat, t: Thread)
    requires t.pc == CasHealth(0)
    ensures Measure(n, t) == 7 * n + 4
  {}
}
