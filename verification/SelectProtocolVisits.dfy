/** What every claim of the selection protocol rests on, however its select was
    interleaved: what its two passes found at each node when they came by. */
module SelectProtocolVisits {
  import opened Options
  import opened Machine
  import opened SelectProtocol
  import opened SelectProtocolProofs

  /** The free-node pass passed by these nodes: each was excluded, or its counter was
      not 0. */
  ghost predicate PassedBy(t: Thread) {
    forall j :: 0 <= j < |t.cas| ==>
      match t.cas[j]
      case Cooled(until) => t.now < until
      case Found(load) => load >= 1
  }

  /** The reserve pass took exactly the nodes it did not find excluded, each at the
      load it found. */
  ghost predicate TookTheUsable(t: Thread) {
    |t.loads| == |t.reserved|
    && (forall j :: 0 <= j < |t.add| ==> (j in t.reserved <==> t.add[j].Found?))
    && (forall j :: 0 <= j < |t.add| && t.add[j].Cooled? ==> t.now < t.add[j].until)
    && (forall m :: 0 <= m < |t.reserved| ==> t.reserved[m] < |t.add| && t.add[t.reserved[m]] == Found(t.loads[m]))
  }

  /** How far each pass of a select over `n` nodes has come. */
  ghost predicate VisitInv(t: Thread, n: nat) {
    match t.pc
    case Idle => true
    case CasHealth(k) => |t.cas| == k && PassedBy(t)
    case CasExpiry(k) => |t.cas| == k && PassedBy(t)
    case CasTry(k) => |t.cas| == k && PassedBy(t)
    case AddHealth(k) => |t.cas| == n && PassedBy(t) && |t.add| == k && TookTheUsable(t)
    case AddExpiry(k) => |t.cas| == n && PassedBy(t) && |t.add| == k && TookTheUsable(t)
    case AddTry(k) => |t.cas| == n && PassedBy(t) && |t.add| == k && TookTheUsable(t)
    case _ => |t.cas| == n && PassedBy(t) && |t.add| == n && TookTheUsable(t)
  }

  lemma CasKeepsVisits(s: State, t: Thread)
    requires Fits(s) && ThreadFits(t, |s.count|) && (t.pc.CasHealth? || t.pc.CasExpiry? || t.pc.CasTry?)
    requires VisitInv(t, |s.count|)
    ensures VisitInv(OwnStep(s, t).thread, |s.count|)
  {}

  lemma ReserveKeepsVisits(t: Thread, k: nat, load: Usize)
    requires |t.add| == k && TookTheUsable(t)
    ensures TookTheUsable(Reserve(t, k, load))
  {
    var t' := Reserve(t, k, load);
    assert forall j :: j in t'.reserved <==> j in t.reserved || j == k;
  }

  lemma SkipKeepsVisits(t: Thread, until: Instant, pc: Pc)
    requires TookTheUsable(t) && t.now < until
    ensures TookTheUsable(t.(pc := pc, add := t.add + [Cooled(until)]))
  {
    assert |t.add| !in t.reserved;
  }

  lemma AddKeepsVisits(s: State, t: Thread)
    requires Fits(s) && ThreadFits(t, |s.count|) && InAddPass(t.pc) && VisitInv(t, |s.count|)
    ensures VisitInv(OwnStep(s, t).thread, |s.count|)
  {
    hide TookTheUsable;
    var t' := OwnStep(s, t).thread;
    match t.pc
    case AddTry(k) => ReserveKeepsVisits(t, k, s.count[k]);
    case AddExpiry(k) =>
      if t.now < s.until[k] {
        SkipKeepsVisits(t, s.until[k], AddHealth(k + 1));
      } else {
        SameVisits(t, t');
      }
    case _ => SameVisits(t, t');
  }

  lemma SameVisits(t: Thread, t': Thread)
    requires t' == t.(pc := t'.pc)
    ensures TookTheUsable(t') == TookTheUsable(t) && PassedBy(t') == PassedBy(t)
  {}

  lemma OwnStepKeepsVisits(s: State, t: Thread)
    requires Fits(s) && ThreadFits(t, |s.count|) && !t.pc.Idle? && VisitInv(t, |s.count|)
    ensures VisitInv(OwnStep(s, t).thread, |s.count|)
  {
    hide TookTheUsable, PassedBy;
    if t.pc.CasHealth? || t.pc.CasExpiry? || t.pc.CasTry? {
      CasKeepsVisits(s, t);
    } else if InAddPass(t.pc) {
      AddKeepsVisits(s, t);
    } else {
      SameVisits(t, OwnStep(s, t).thread);
    }
  }

  ghost predicate VisitsInv(s: State) {
    forall t :: 0 <= t < |s.threads| ==> VisitInv(s.threads[t], |s.count|)
  }

  lemma BegunVisits(now: Instant, n: nat)
    ensures VisitInv(Begun(now), n)
  {}

  lemma StepKeepsVisits(s: State, e: Step)
    requires Fits(s) && Enabled(s, e) && VisitsInv(s)
    ensures VisitsInv(Exec(s, e))
  {
    hide VisitInv, OwnStep, ThreadFits;
    match e
    case Start(t, now) => BegunVisits(now, |s.count|);
    case Own(t) =>
      ThreadOfState(s, t);
      OwnStepKeepsVisits(s, s.threads[t]);
    case _ =>
  }

  lemma {:induction false} RunKeepsVisits(s: State, steps: seq<Step>)
    requires Fits(s) && EnabledAlong(s, steps) && VisitsInv(s)
    ensures VisitsInv(Run(s, steps))
    decreases |steps|
  {
    hide Exec, Enabled, Fits, VisitsInv;
    if steps != [] {
      StepKeepsVisits(s, steps[0]);
      RunKeepsVisits(Exec(s, steps[0]), steps[1..]);
    }
  }

  /** What a pass finds in a counter is the number of claims and reservations there. */
  lemma VisitsFindHolders(s: State, t: nat)
    requires Inv(s) && Enabled(s, Own(t)) && (s.threads[t].pc.CasTry? || s.threads[t].pc.AddTry?)
    ensures var th, r := s.threads[t], OwnStep(s, s.threads[t]);
            var held := Holders(s, th.pc.k);
            held <= USIZE_MAX
            && (th.pc.CasTry? ==> (r.claim.Some? <==> held == 0))
            && (th.pc.CasTry? && held > 0 ==> r.thread.cas == th.cas + [Found(held)])
            && (th.pc.AddTry? ==> r.thread.add == th.add + [Found(held)])
  {}

  /** All nodes the reserve pass saw were excluded. */
  ghost predicate AllCooled(t: Thread) {
    forall j :: 0 <= j < |t.add| ==> t.add[j].Cooled?
  }

  /** What justifies a claim, by the pass it comes from. */
  ghost predicate Justified(s: State, t: Thread, m: Made) {
    PassedBy(t)
    && match m.origin
       case ByCas => m.node == |t.cas| < |s.count| && s.count[m.node] == 0
       case ByReservation =>
         |t.cas| == |t.add| == |s.count| && TookTheUsable(t) && !AllCooled(t)
         && exists j :: 0 <= j < |t.reserved| && t.reserved[j] == m.node
              && (forall k :: 0 <= k < |t.loads| ==> t.loads[j] <= t.loads[k])
              && (forall k :: 0 <= k < j ==> t.loads[j] < t.loads[k])
       case ByFallback => |t.cas| == |t.add| == |s.count| && TookTheUsable(t) && AllCooled(t)
  }

  lemma NothingReserved(t: Thread)
    requires TookTheUsable(t)
    ensures t.reserved == [] <==> AllCooled(t)
  {
    if t.reserved != [] {
      assert t.add[t.reserved[0]].Found?;
    }
  }

  lemma ClaimIsJustified(s: State, t: Thread)
    requires Fits(s) && ThreadFits(t, |s.count|) && !t.pc.Idle? && VisitInv(t, |s.count|)
    requires ThreadInv(t) && LoadsBelowMax(t) && OwnStep(s, t).claim.Some?
    ensures Justified(s, t, OwnStep(s, t).claim.value)
  {
    hide PassedBy, TookTheUsable, BestIsLeast, AllCooled, LoadsBelowMax;
    match t.pc
    case CasTry(k) =>
    case Release(p) =>
      BestIsReserved(t);
      NothingReserved(t);
      WinnerHadLeastLoad(s, t);
    case FallbackAdd(sel) =>
      NoBestNoReservation(t);
      NothingReserved(t);
    case _ =>
  }

  /** Whatever the interleaving: a select that claims node b in the free-node pass found
      every lower node excluded or held, by a claim or a reservation, when it came by,
      and b with no holder. One that gets past that pass found every node so; it then
      reserved exactly the nodes it did not find excluded on its second visit and keeps
      the first with the least load found, and falls back only if it found all
      excluded. */
  lemma EveryClaimIsJustified(s: State, steps: seq<Step>, t: nat)
    requires Init(s) && EnabledAlong(s, steps) && RoomAlong(s, steps) && Enabled(Run(s, steps), Own(t))
    requires OwnStep(Run(s, steps), Run(s, steps).threads[t]).claim.Some?
    ensures var e := Run(s, steps);
            var m := OwnStep(e, e.threads[t]).claim.value;
            Justified(e, e.threads[t], m) && (m.origin.ByCas? ==> Holders(e, m.node) == 0)
  {
    hide Exec, OwnStep, EnabledAlong, RoomAlong, Run, ThreadInv, LoadsBelowMax, VisitInv, Justified;
    InitInv(s);
    RunKeepsInv(s, steps);
    InitVisits(s);
    RunKeepsVisits(s, steps);
    var e := Run(s, steps);
    ThreadOfState(e, t);
    ClaimIsJustified(e, e.threads[t]);
    if OwnStep(e, e.threads[t]).claim.value.origin.ByCas? {
      CasNode(e, e.threads[t]);
      VisitsFindHolders(e, t);
    }
  }

  lemma InitVisits(s: State)
    requires Init(s)
    ensures Fits(s) && VisitsInv(s)
  {}

  lemma CasNode(s: State, t: Thread)
    requires Fits(s) && ThreadFits(t, |s.count|) && !t.pc.Idle?
    requires OwnStep(s, t).claim.Some? && OwnStep(s, t).claim.value.origin.ByCas?
    ensures t.pc == CasTry(OwnStep(s, t).claim.value.node)
  {}
}
