/** A select that nobody interrupts chooses the node SelectSpec prescribes: the
    interleaved protocol, run alone, refines the specification the sequential
    balancer is proved against. */
module SelectProtocolSolo {
  import opened Options
  import opened Machine
  import opened SelectProtocol
  import opened SelectProtocolProofs
  import Spec = SelectSpec
  import Nodes = Backends

  /** The node list as a select that began at `now` sees it. */
  ghost function View(s: State, now: Instant): (v: Spec.Snapshot)
    requires Fits(s)
    ensures Spec.Fits(v) && v.count == s.count && v.until == s.until
    ensures forall i :: 0 <= i < |s.count| ==> v.cooled[i] == (!s.healthy[i] && now < s.until[i])
  {
    Spec.Snapshot(s.count, seq(|s.count|, i requires 0 <= i < |s.count| => !s.healthy[i] && now < s.until[i]), s.until)
  }

  /** A failed or successful request as the node records it, in the protocol's steps:
      first the end of the window, then the flag, and nothing else. */
  lemma HealthEventSteps(s: State, i: nat, clockMax: nat, e: Nodes.HealthEvent)
    requires Fits(s) && i < |s.count| && s.until[i] >= 0
    ensures var h := Nodes.AfterEvent(clockMax, Nodes.Health(s.healthy[i], s.until[i]), e);
            var m := if e.Failure? then Exec(s, SetExpiry(i, h.until)) else s;
            Exec(m, SetHealthy(i, e.Success?))
            == s.(healthy := s.healthy[i := h.healthy], until := s.until[i := h.until])
  {
    assert s.until[i := s.until[i]] == s.until;
  }

  /** Thread `t` takes every step until its select is over. */
  ghost function RunAlone(s: State, t: nat): (s': State)
    requires Fits(s) && t < |s.threads| && ThreadInv(s.threads[t])
    ensures Fits(s') && |s'.count| == |s.count| && |s'.threads| == |s.threads|
    decreases Measure(|s.count|, s.threads[t])
  {
    if s.threads[t].pc.Idle? then s
    else
      OwnStepDecreases(s, s.threads[t]);
      OwnStepKeepsThreadInv(s, s.threads[t]);
      RunAlone(Exec(s, Own(t)), t)
  }

  /** What a lone select has established at each of its steps, from the snapshot
      `v` it began with. */
  ghost predicate SoloInv(s: State, t: Thread, v: Spec.Snapshot)
    requires Fits(s) && ThreadFits(t, |s.count|) && Spec.Fits(v)
  {
    |v.count| == |s.count| && v.until == s.until
    && (forall i :: 0 <= i < |s.count| ==> v.cooled[i] == (!s.healthy[i] && t.now < s.until[i]))
    && (forall i :: 0 <= i < |s.count| ==> v.count[i] < USIZE_MAX)
    && match t.pc
       case Idle => false
       case CasHealth(k) => s.count == v.count && NoneFreeBelow(v, k)
       case CasExpiry(k) => s.count == v.count && NoneFreeBelow(v, k) && !s.healthy[k]
       case CasTry(k) => s.count == v.count && NoneFreeBelow(v, k) && !v.cooled[k]
       case AddHealth(k) => Adding(s, t, v, k)
       case AddExpiry(k) => Adding(s, t, v, k) && !s.healthy[k]
       case AddTry(k) => Adding(s, t, v, k) && !v.cooled[k]
       case Release(p) => Releasing(s, t, v, p)
       case Scan(k, sel, at) =>
         s.count == v.count && AllCooled(v) && (k > 0 ==> at == v.until[sel] && Spec.IsSoonest(v.until[..k], sel))
       case FallbackAdd(sel) => s.count == v.count && AllCooled(v) && Spec.IsSoonest(v.until, sel)
  }

  ghost predicate NoneFreeBelow(v: Spec.Snapshot, k: nat)
    requires Spec.Fits(v) && k <= |v.count|
  {
    forall i :: 0 <= i < k ==> !Spec.IsFree(v, i)
  }

  ghost predicate AllCooled(v: Spec.Snapshot)
    requires Spec.Fits(v)
  {
    forall i :: 0 <= i < |v.count| ==> v.cooled[i]
  }

  /** The reserve pass before node `k`: it holds the nodes below that are not cooled
      and found each at the load the snapshot shows. */
  ghost predicate Adding(s: State, t: Thread, v: Spec.Snapshot, k: nat)
    requires Spec.Fits(v) && |v.count| == |s.count| && k <= |s.count|
  {
    Spec.NobodyFree(v) && |t.loads| == |t.reserved|
    && (forall i :: 0 <= i < |s.count| ==> (i in t.reserved <==> i < k && !v.cooled[i]))
    && (forall j :: 0 <= j < |t.reserved| ==> t.reserved[j] < k && t.loads[j] == v.count[t.reserved[j]])
    && (forall i :: 0 <= i < |s.count| ==> s.count[i] == v.count[i] + if i in t.reserved then 1 else 0)
  }

  ghost predicate Releasing(s: State, t: Thread, v: Spec.Snapshot, p: nat)
    requires Spec.Fits(v) && |v.count| == |s.count| && p <= |t.reserved|
  {
    t.best.Some? && Spec.NobodyFree(v) && Spec.IsLeastLoaded(v, t.best.value) && t.best.value in t.reserved
    && (forall i :: 0 <= i < |s.count| ==>
          s.count[i] == v.count[i] + if i == t.best.value || i in t.reserved[p..] then 1 else 0)
  }

  /** The thread's last step: one claim, on the node the specification prescribes. */
  ghost predicate Chooses(r: Effect, v: Spec.Snapshot)
    requires Spec.Fits(v)
  {
    r.claim.Some?
    && var b := r.claim.value.node;
    b < |v.count| && Spec.IsPriorityFree(v, b) && r.count == v.count[b := v.count[b] + 1]
  }

  lemma SoloCas(s: State, t: Thread, v: Spec.Snapshot)
    requires Fits(s) && ThreadFits(t, |s.count|) && Spec.Fits(v) && ThreadInv(t) && SoloInv(s, t, v)
    requires t.pc.CasHealth? || t.pc.CasExpiry? || t.pc.CasTry?
    ensures var r := OwnStep(s, t);
            if r.thread.pc.Idle? then Chooses(r, v)
            else SoloInv(s.(count := r.count), r.thread, v)
  {
    hide BestIsLeast;
    if t.pc.CasTry? && s.count[t.pc.k] == 0 {
      Spec.FirstFreeIsChosen(v, t.pc.k);
    }
  }

  lemma SoloReserve(s: State, t: Thread, v: Spec.Snapshot)
    requires Fits(s) && ThreadFits(t, |s.count|) && Spec.Fits(v) && SoloInv(s, t, v) && t.pc.AddTry?
    ensures var r := OwnStep(s, t);
            !r.thread.pc.Idle? && SoloInv(s.(count := r.count), r.thread, v)
  {
    hide Adding, Releasing, NoneFreeBelow, AllCooled;
    AddingSnoc(s, t, v, t.pc.k);
  }

  lemma AddingSnoc(s: State, t: Thread, v: Spec.Snapshot, k: nat)
    requires Spec.Fits(v) && |v.count| == |s.count| && k < |s.count| && Adding(s, t, v, k) && !v.cooled[k]
    requires forall i :: 0 <= i < |s.count| ==> v.count[i] < USIZE_MAX
    ensures s.count[k] == v.count[k]
    ensures Adding(s.(count := s.count[k := s.count[k] + 1]), Reserve(t, k, s.count[k]), v, k + 1)
  {
    hide Spec.NobodyFree;
    assert k !in t.reserved;
    assert forall i :: i in t.reserved + [k] <==> i in t.reserved || i == k;
  }

  lemma SoloAddEnds(s: State, t: Thread, v: Spec.Snapshot)
    requires Fits(s) && ThreadFits(t, |s.count|) && Spec.Fits(v) && ThreadInv(t) && SoloInv(s, t, v)
    requires t.pc == AddHealth(|s.count|)
    ensures var r := OwnStep(s, t);
            !r.thread.pc.Idle? && SoloInv(s.(count := r.count), r.thread, v)
  {
    hide Spec.NobodyFree, BestIsLeast, Spec.IsLeastLoaded;
    if t.best.Some? {
      BestIsLeastLoaded(s, t, v);
      BestIsReserved(t);
      assert t.reserved[0..] == t.reserved;
    } else {
      assert LoadsBelowMax(t);
      NoBestNoReservation(t);
      assert s.count == v.count;
    }
  }

  lemma SoloAdd(s: State, t: Thread, v: Spec.Snapshot)
    requires Fits(s) && ThreadFits(t, |s.count|) && Spec.Fits(v) && ThreadInv(t) && SoloInv(s, t, v)
    requires InAddPass(t.pc)
    ensures var r := OwnStep(s, t);
            !r.thread.pc.Idle? && SoloInv(s.(count := r.count), r.thread, v)
  {
    hide BestIsLeast, Spec.NobodyFree;
    if t.pc.AddTry? {
      SoloReserve(s, t, v);
    } else if t.pc == AddHealth(|s.count|) {
      SoloAddEnds(s, t, v);
    }
  }

  lemma BestIsLeastLoaded(s: State, t: Thread, v: Spec.Snapshot)
    requires Spec.Fits(v) && |v.count| == |s.count| && Adding(s, t, v, |s.count|)
    requires ThreadInv(t) && BestIsLeast(t) && t.best.Some?
    ensures Spec.IsLeastLoaded(v, t.best.value)
  {
    var j: nat :| IsFirstLeast(t, t.best.value, j);
    forall i | 0 <= i < |v.count| && !v.cooled[i]
      ensures v.count[t.best.value] <= v.count[i]
      ensures i < t.best.value ==> v.count[t.best.value] < v.count[i]
    {
      assert i in t.reserved;
      var m :| 0 <= m < |t.reserved| && t.reserved[m] == i;
      assert t.loads[m] == v.count[i] && t.loads[j] == v.count[t.best.value];
    }
  }

  lemma SoloRelease(s: State, t: Thread, v: Spec.Snapshot)
    requires Fits(s) && ThreadFits(t, |s.count|) && Spec.Fits(v) && ThreadInv(t) && SoloInv(s, t, v)
    requires t.pc.Release?
    ensures var r := OwnStep(s, t);
            if r.thread.pc.Idle? then Chooses(r, v)
            else SoloInv(s.(count := r.count), r.thread, v)
  {
    hide Releasing, Adding, NoneFreeBelow, AllCooled, BestIsLeast, Spec.IsPriorityFree;
    if t.pc.p < |t.reserved| {
      ReleasingStep(s, t, v, t.pc.p);
    } else {
      ReleasedAll(s, t, v);
    }
  }

  /** One reserved node gives its reservation back, unless it is the winner. */
  lemma ReleasingStep(s: State, t: Thread, v: Spec.Snapshot, p: nat)
    requires Spec.Fits(v) && |v.count| == |s.count| && p < |t.reserved| && Releasing(s, t, v, p)
    requires Increasing(t.reserved) && t.reserved[p] < |s.count|
    ensures t.best.Some?
    ensures var i := t.reserved[p];
            i != t.best.value ==> s.count[i] >= 1
    ensures var i := t.reserved[p];
            var count := if i != t.best.value then s.count[i := FetchSub(s.count[i])] else s.count;
            Releasing(s.(count := count), t.(pc := Release(p + 1)), v, p + 1)
  {
    hide Spec.IsLeastLoaded, Spec.NobodyFree;
    var xs := t.reserved;
    assert xs[p..] == [xs[p]] + xs[p + 1..];
    assert xs[p] !in xs[p + 1..] by {
      assert forall m :: p + 1 <= m < |xs| ==> xs[p] < xs[m];
    }
  }

  lemma ReleasedAll(s: State, t: Thread, v: Spec.Snapshot)
    requires Spec.Fits(v) && |v.count| == |s.count| && Releasing(s, t, v, |t.reserved|)
    requires t.best.Some? && t.best.value < |s.count|
    ensures Spec.IsPriorityFree(v, t.best.value) && s.count == v.count[t.best.value := v.count[t.best.value] + 1]
  {
    hide Spec.IsLeastLoaded, Spec.NobodyFree, Spec.IsPriorityFree;
    assert t.reserved[|t.reserved|..] == [];
    Spec.LeastLoadedIsChosen(v, t.best.value);
  }

  lemma SoloFallback(s: State, t: Thread, v: Spec.Snapshot)
    requires Fits(s) && ThreadFits(t, |s.count|) && Spec.Fits(v) && ThreadInv(t) && SoloInv(s, t, v)
    requires InFallback(t.pc)
    ensures var r := OwnStep(s, t);
            if r.thread.pc.Idle? then Chooses(r, v)
            else SoloInv(s.(count := r.count), r.thread, v)
  {
    if t.pc.Scan? {
      var k := t.pc.k;
      if k == |s.count| {
        assert v.until[..k] == v.until;
      } else {
        assert v.until[..k + 1] == v.until[..k] + [v.until[k]];
      }
    } else {
      Spec.SoonestIsChosen(v, t.pc.sel);
    }
  }

  lemma SoloStep(s: State, t: Thread, v: Spec.Snapshot)
    requires Fits(s) && ThreadFits(t, |s.count|) && Spec.Fits(v) && ThreadInv(t) && SoloInv(s, t, v)
    ensures !t.pc.Idle?
    ensures var r := OwnStep(s, t);
            if r.thread.pc.Idle? then Chooses(r, v)
            else SoloInv(s.(count := r.count), r.thread, v)
  {
    hide ThreadInv, OwnStep, Chooses, Adding, Releasing, NoneFreeBelow;
    if t.pc.CasHealth? || t.pc.CasExpiry? || t.pc.CasTry? {
      SoloCas(s, t, v);
    } else if InAddPass(t.pc) {
      SoloAdd(s, t, v);
    } else if t.pc.Release? {
      SoloRelease(s, t, v);
    } else {
      SoloFallback(s, t, v);
    }
  }

  /** The claim and the counters a lone select leaves behind. */
  ghost predicate Chosen(s: State, s': State, t: nat, v: Spec.Snapshot)
    requires Spec.Fits(v) && t < |s'.threads|
  {
    s'.threads[t].pc.Idle? && |s'.claims| == |s.claims| + 1 && s'.claims[..|s.claims|] == s.claims
    && s'.claims[|s.claims|].phase == Held(1) && s'.claims[|s.claims|].maker == t
    && var b := s'.claims[|s.claims|].node;
    b < |v.count| && Spec.IsPriorityFree(v, b) && s'.count == v.count[b := v.count[b] + 1]
  }

  lemma {:induction false} SoloRun(s: State, t: nat, v: Spec.Snapshot)
    requires Fits(s) && t < |s.threads| && ThreadInv(s.threads[t]) && Spec.Fits(v)
    requires ThreadFits(s.threads[t], |s.count|) && SoloInv(s, s.threads[t], v)
    ensures Chosen(s, RunAlone(s, t), t, v)
    decreases Measure(|s.count|, s.threads[t])
  {
    hide ThreadInv, OwnStep, SoloInv, ThreadFits, Measure, Spec.IsPriorityFree;
    var th := s.threads[t];
    SoloStep(s, th, v);
    OwnStepDecreases(s, th);
    OwnStepKeepsThreadInv(s, th);
    var r := OwnStep(s, th);
    var s1 := Exec(s, Own(t));
    if r.thread.pc.Idle? {
      assert RunAlone(s1, t) == s1;
    } else {
      SoloSame(s.(count := r.count), s1, r.thread, v);
      SoloRun(s1, t, v);
    }
  }

  lemma SoloSame(a: State, b: State, t: Thread, v: Spec.Snapshot)
    requires Fits(a) && Fits(b) && ThreadFits(t, |a.count|) && Spec.Fits(v) && SoloInv(a, t, v)
    requires a.count == b.count && a.healthy == b.healthy && a.until == b.until
    ensures SoloInv(b, t, v)
  {}

  /** Run alone, a select that starts at `now` claims exactly the node the
      specification prescribes for the counters and cooldowns it starts with, raises
      that node's counter by one and leaves every other counter as it was. */
  lemma LoneSelectIsPriorityFree(s: State, t: nat, now: Instant)
    requires Inv(s) && Room(s) && Enabled(s, Start(t, now))
    ensures var s1 := Exec(s, Start(t, now));
            ThreadInv(s1.threads[t]) && Chosen(s, RunAlone(s1, t), t, View(s, now))
  {
    hide Room, Holds, LoadsBelowMax, ThreadInv, ThreadFits, RunAlone;
    var v := View(s, now);
    var s1 := Exec(s, Start(t, now));
    StartKeepsInv(s, t, now);
    forall i | 0 <= i < |s.count|
      ensures v.count[i] < USIZE_MAX
    {
      RoomAt(s, i);
    }
    ThreadOfState(s1, t);
    SoloRun(s1, t, v);
  }

  lemma RoomAt(s: State, i: nat)
    requires Inv(s) && Room(s) && i < |s.count|
    ensures s.count[i] < USIZE_MAX
  {}
}
