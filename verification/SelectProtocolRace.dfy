/** Where the promise of llama-proxy/src/backends/priority_free.rs:1-4 ends: two
    selects in a race put two requests on one node while the other has none. */
module SelectProtocolRace {
  import opened Options
  import opened Machine
  import opened SelectProtocol
  import opened SelectProtocolProofs

  // ---------- runs, piece by piece ----------

  ghost predicate Leads(s: State, steps: seq<Step>, e: State) {
    Fits(s) && EnabledAlong(s, steps) && Run(s, steps) == e
  }

  lemma StaysPut(s: State)
    requires Fits(s)
    ensures Leads(s, [], s)
  {}

  lemma StepThen(s: State, step: Step, steps: seq<Step>, e: State)
    requires Fits(s) && Enabled(s, step) && Leads(Exec(s, step), steps, e)
    ensures Leads(s, [step] + steps, e)
  {
    hide Exec, Enabled;
    assert ([step] + steps)[1..] == steps;
  }

  lemma {:induction false} LeadsOn(s: State, xs: seq<Step>, m: State, ys: seq<Step>, e: State)
    requires Leads(s, xs, m) && Leads(m, ys, e)
    ensures Leads(s, xs + ys, e)
    decreases |xs|
  {
    hide Exec, Enabled;
    if xs == [] {
      assert xs + ys == ys;
    } else {
      LeadsOn(Exec(s, xs[0]), xs[1..], m, ys, e);
      StepThen(s, xs[0], xs[1..] + ys, e);
      assert xs + ys == [xs[0]] + (xs[1..] + ys);
    }
  }

  /** `k` steps of thread `t`. */
  function Owns(t: nat, k: nat): seq<Step> {
    if k == 0 then [] else [Own(t)] + Owns(t, k - 1)
  }

  lemma OwnThen(s: State, t: nat, k: nat, e: State)
    requires Fits(s) && Enabled(s, Own(t)) && Leads(Exec(s, Own(t)), Owns(t, k), e)
    ensures Leads(s, Owns(t, k + 1), e)
  {
    hide Exec, Enabled, Leads;
    StepThen(s, Own(t), Owns(t, k), e);
  }

  // ---------- two healthy nodes, two threads ----------

  /** Two threads over two healthy nodes. */
  ghost predicate IsPair(s: State) {
    Fits(s) && |s.count| == 2 && s.healthy == [true, true] && |s.threads| == 2
  }

  function With(s: State, t: nat, th: Thread): State
    requires t < |s.threads|
  {
    s.(threads := s.threads[t := th])
  }

  // ---------- single steps ----------

  /** A healthy node goes straight to its counter. */
  lemma VisitStep(s: State, t: nat, k: nat)
    requires IsPair(s) && t < 2 && k < 2 && (s.threads[t].pc == CasHealth(k) || s.threads[t].pc == AddHealth(k))
    ensures Enabled(s, Own(t))
    ensures Exec(s, Own(t)) == With(s, t, s.threads[t].(pc := if s.threads[t].pc.CasHealth? then CasTry(k) else AddTry(k)))
  {
    assert s.healthy[k];
    assert s.(count := s.count) == s;
  }

  lemma HeldStep(s: State, t: nat, k: nat)
    requires IsPair(s) && t < 2 && k < 2 && s.threads[t].pc == CasTry(k) && s.count[k] > 0
    ensures Enabled(s, Own(t))
    ensures Exec(s, Own(t))
         == With(s, t, s.threads[t].(pc := CasHealth(k + 1), cas := s.threads[t].cas + [Found(s.count[k])]))
  {}

  lemma FreeStep(s: State, t: nat, k: nat)
    requires IsPair(s) && t < 2 && k < 2 && s.threads[t].pc == CasTry(k) && s.count[k] == 0
    ensures Enabled(s, Own(t))
    ensures Exec(s, Own(t))
         == With(s, t, s.threads[t].(pc := Idle))
            .(count := s.count[k := 1], claims := s.claims + [Born(Made(k, ByCas), t)])
  {}

  lemma TakeStep(s: State, t: nat, k: nat)
    requires IsPair(s) && t < 2 && k < 2 && s.threads[t].pc == AddTry(k) && s.count[k] < USIZE_MAX
    ensures Enabled(s, Own(t))
    ensures Exec(s, Own(t))
         == With(s, t, Reserve(s.threads[t], k, s.count[k])).(count := s.count[k := s.count[k] + 1])
  {}

  lemma PassEnds(s: State, t: nat)
    requires IsPair(s) && t < 2
    requires s.threads[t].pc == CasHealth(2) || (s.threads[t].pc == AddHealth(2) && s.threads[t].best.Some?)
    ensures Enabled(s, Own(t))
    ensures Exec(s, Own(t))
         == With(s, t, if s.threads[t].pc.CasHealth? then EnterAddPass(s.threads[t])
                       else s.threads[t].(pc := Release(0)))
  {}

  lemma ReleaseStep(s: State, t: nat, p: nat)
    requires IsPair(s) && t < 2 && s.threads[t].pc == Release(p) && p < 2
    requires s.threads[t].reserved == [0, 1] && s.threads[t].best == Some(0) && s.count[1] > 0
    ensures Enabled(s, Own(t))
    ensures Exec(s, Own(t))
         == With(s, t, s.threads[t].(pc := Release(p + 1)))
            .(count := if p == 1 then s.count[1 := s.count[1] - 1] else s.count)
  {}

  lemma KeepStep(s: State, t: nat)
    requires IsPair(s) && t < 2 && s.threads[t].pc == Release(2)
    requires s.threads[t].reserved == [0, 1] && s.threads[t].best == Some(0)
    ensures Enabled(s, Own(t))
    ensures Exec(s, Own(t))
         == With(s, t, s.threads[t].(pc := Idle)).(claims := s.claims + [Born(Made(0, ByReservation), t)])
  {}

  lemma BeginStep(s: State, t: nat)
    requires IsPair(s) && t < 2 && s.threads[t].pc.Idle?
    ensures Enabled(s, Start(t, 0)) && Exec(s, Start(t, 0)) == With(s, t, Begun(0))
  {}

  /** Dropping the only guard of a claim on node `k`. */
  lemma DropSteps(s: State, c: nat)
    requires IsPair(s) && c < |s.claims| && s.claims[c].phase == Held(1) && s.count[s.claims[c].node] > 0
    ensures var k := s.claims[c].node;
            Leads(s, [DropRef(c), FinishDrop(c)],
                  s.(count := s.count[k := s.count[k] - 1], claims := s.claims[c := s.claims[c].(phase := Released)]))
  {
    var m := Exec(s, DropRef(c));
    assert m == s.(claims := s.claims[c := s.claims[c].(phase := Dropping)]);
    var e := Exec(m, FinishDrop(c));
    assert e.claims == s.claims[c := s.claims[c].(phase := Released)];
    StaysPut(e);
    assert [FinishDrop(c)] + [] == [FinishDrop(c)];
    StepThen(m, FinishDrop(c), [], e);
    StepThen(s, DropRef(c), [FinishDrop(c)], e);
    assert [DropRef(c)] + [FinishDrop(c)] == [DropRef(c), FinishDrop(c)];
  }

  lemma NoOwns(s: State, t: nat)
    requires Fits(s)
    ensures Leads(s, Owns(t, 0), s)
  {}

  // ---------- passes ----------

  /** A select that starts while both nodes are held gets past its first pass. */
  lemma BothHeld(s: State, t: nat)
    requires IsPair(s) && t < 2 && s.threads[t].pc == CasHealth(0)
    requires s.count[0] > 0 && s.count[1] > 0
    ensures Leads(s, Owns(t, 5),
                  With(s, t, EnterAddPass(s.threads[t].(
                    cas := s.threads[t].cas + [Found(s.count[0])] + [Found(s.count[1])]))))
  {
    hide Leads, Owns, Exec, OwnStep, Enabled, ThreadFits;
    var th := s.threads[t];
    VisitStep(s, t, 0);
    var s1 := Exec(s, Own(t));
    HeldStep(s1, t, 0);
    var s2 := Exec(s1, Own(t));
    VisitStep(s2, t, 1);
    var s3 := Exec(s2, Own(t));
    HeldStep(s3, t, 1);
    var s4 := Exec(s3, Own(t));
    PassEnds(s4, t);
    var e := Exec(s4, Own(t));
    NoOwns(e, t);
    OwnThen(s4, t, 0, e);
    OwnThen(s3, t, 1, e);
    OwnThen(s2, t, 2, e);
    OwnThen(s1, t, 3, e);
    OwnThen(s, t, 4, e);
    assert e == With(s, t, EnterAddPass(th.(cas := th.cas + [Found(s.count[0])] + [Found(s.count[1])])));
  }

  /** A thread past a reserve pass over both nodes that found `c0` and `c1`. */
  function TookBoth(th: Thread, c0: Usize, c1: Usize): Thread {
    th.(pc := Release(0), reserved := [0, 1], loads := [c0, c1], best := Some(0), bestLoad := c0,
        add := [Found(c0), Found(c1)])
  }

  lemma ReserveTwice(th: Thread, c0: Usize, c1: Usize)
    requires th == EnterAddPass(th) && c0 <= c1 && c0 < USIZE_MAX
    ensures Reserve(Reserve(th, 0, c0).(pc := AddTry(1)), 1, c1).(pc := Release(0)) == TookBoth(th, c0, c1)
  {
    assert [] + [0] == [0] && [0] + [1] == [0, 1];
  }

  /** The reserve pass takes both; node 0 is kept when it is not the busier one. */
  lemma TakesBoth(s: State, t: nat)
    requires IsPair(s) && t < 2 && s.threads[t] == EnterAddPass(s.threads[t])
    requires s.count[0] <= s.count[1] < USIZE_MAX
    ensures Leads(s, Owns(t, 5),
                  With(s, t, TookBoth(s.threads[t], s.count[0], s.count[1])).(count := [s.count[0] + 1, s.count[1] + 1]))
  {
    hide Leads, Owns, Exec, OwnStep, Enabled, ThreadFits;
    var th, c0, c1 := s.threads[t], s.count[0], s.count[1];
    ReserveTwice(th, c0, c1);
    VisitStep(s, t, 0);
    var s1 := Exec(s, Own(t));
    TakeStep(s1, t, 0);
    var s2 := Exec(s1, Own(t));
    VisitStep(s2, t, 1);
    var s3 := Exec(s2, Own(t));
    TakeStep(s3, t, 1);
    var s4 := Exec(s3, Own(t));
    PassEnds(s4, t);
    var e := Exec(s4, Own(t));
    NoOwns(e, t);
    OwnThen(s4, t, 0, e);
    OwnThen(s3, t, 1, e);
    OwnThen(s2, t, 2, e);
    OwnThen(s1, t, 3, e);
    OwnThen(s, t, 4, e);
    assert e.count == [c0 + 1, c1 + 1];
    assert e.threads[t] == TookBoth(th, c0, c1);
    assert e == With(s, t, TookBoth(th, c0, c1)).(count := [c0 + 1, c1 + 1]);
  }

  /** A select past that pass gives node 1 back and claims node 0. */
  lemma KeepsNode0(s: State, t: nat)
    requires IsPair(s) && t < 2 && s.threads[t].pc == Release(0)
    requires s.threads[t].reserved == [0, 1] && s.threads[t].best == Some(0) && s.count[1] > 0
    ensures Leads(s, Owns(t, 3),
                  With(s, t, s.threads[t].(pc := Idle))
                  .(count := [s.count[0], s.count[1] - 1], claims := s.claims + [Born(Made(0, ByReservation), t)]))
  {
    hide Leads, Owns, Exec, OwnStep, Enabled, ThreadFits;
    ReleaseStep(s, t, 0);
    var s1 := Exec(s, Own(t));
    ReleaseStep(s1, t, 1);
    var s2 := Exec(s1, Own(t));
    KeepStep(s2, t);
    var e := Exec(s2, Own(t));
    NoOwns(e, t);
    OwnThen(s2, t, 0, e);
    OwnThen(s1, t, 1, e);
    OwnThen(s, t, 2, e);
    assert e.count == [s.count[0], s.count[1] - 1];
    assert e.threads == With(s, t, s.threads[t].(pc := Idle)).threads;
  }

  /** A select that finds node 0 free claims it. */
  lemma ClaimsNode0(s: State, t: nat)
    requires IsPair(s) && t < 2 && s.threads[t].pc.Idle? && s.count[0] == 0
    ensures Leads(s, [Start(t, 0)] + Owns(t, 2),
                  With(s, t, Begun(0).(pc := Idle))
                  .(count := s.count[0 := 1], claims := s.claims + [Born(Made(0, ByCas), t)]))
  {
    hide Leads, Owns, Exec, OwnStep, Enabled, ThreadFits;
    BeginStep(s, t);
    var s1 := Exec(s, Start(t, 0));
    VisitStep(s1, t, 0);
    var s2 := Exec(s1, Own(t));
    FreeStep(s2, t, 0);
    var e := Exec(s2, Own(t));
    NoOwns(e, t);
    OwnThen(s2, t, 0, e);
    OwnThen(s1, t, 1, e);
    StepThen(s, Start(t, 0), Owns(t, 2), e);
    assert e.threads == With(s, t, Begun(0).(pc := Idle)).threads;
  }

  /** One that finds node 0 held and node 1 free claims node 1. */
  lemma ClaimsNode1(s: State, t: nat)
    requires IsPair(s) && t < 2 && s.threads[t].pc.Idle? && s.count[0] > 0 && s.count[1] == 0
    ensures Leads(s, [Start(t, 0)] + Owns(t, 4),
                  With(s, t, Begun(0).(pc := Idle, cas := [] + [Found(s.count[0])]))
                  .(count := s.count[1 := 1], claims := s.claims + [Born(Made(1, ByCas), t)]))
  {
    hide Leads, Owns, Exec, OwnStep, Enabled, ThreadFits;
    BeginStep(s, t);
    var s1 := Exec(s, Start(t, 0));
    VisitStep(s1, t, 0);
    var s2 := Exec(s1, Own(t));
    HeldStep(s2, t, 0);
    var s3 := Exec(s2, Own(t));
    VisitStep(s3, t, 1);
    var s4 := Exec(s3, Own(t));
    FreeStep(s4, t, 1);
    var e := Exec(s4, Own(t));
    NoOwns(e, t);
    OwnThen(s4, t, 0, e);
    OwnThen(s3, t, 1, e);
    OwnThen(s2, t, 2, e);
    OwnThen(s1, t, 3, e);
    StepThen(s, Start(t, 0), Owns(t, 4), e);
    assert e.threads == With(s, t, Begun(0).(pc := Idle, cas := [] + [Found(s.count[0])])).threads;
  }

  // ---------- the race ----------

  function Resting(): Thread {
    Begun(0).(pc := Idle)
  }

  function Start2(): State {
    State([0, 0], [true, true], [0, 0], [Resting(), Resting()], [])
  }

  /** Thread 1 has claimed both nodes, one select after the other. */
  function BothClaimed(): State {
    Start2().(count := [1, 1], threads := [Resting(), Resting().(cas := [Found(1)])],
              claims := [Born(Made(0, ByCas), 1), Born(Made(1, ByCas), 1)])
  }

  /** Thread 0 has got past its first pass meanwhile, and then both claims were dropped
      and thread 0 has reserved both nodes. */
  function BothReserved(): State {
    BothClaimed().(
      threads := [TookBoth(EnterAddPass(Begun(0).(cas := [Found(1), Found(1)])), 0, 0), Resting().(cas := [Found(1)])],
      claims := [Born(Made(0, ByCas), 1).(phase := Released), Born(Made(1, ByCas), 1).(phase := Released)])
  }

  lemma ToBothClaimed()
    ensures Leads(Start2(), ([Start(1, 0)] + Owns(1, 2)) + ([Start(1, 0)] + Owns(1, 4)), BothClaimed())
  {
    hide Leads, Owns, Exec, OwnStep, Enabled;
    var s := Start2();
    var m := With(s, 1, Resting()).(count := [1, 0], claims := [Born(Made(0, ByCas), 1)]);
    assert s.count[0 := 1] == m.count && s.claims + [Born(Made(0, ByCas), 1)] == m.claims;
    ClaimsNode0(s, 1);
    ClaimsNode1(m, 1);
    assert m.count[1 := 1] == [1, 1] && [] + [Found(1)] == [Found(1)];
    assert m.claims + [Born(Made(1, ByCas), 1)] == BothClaimed().claims;
    assert m.threads[1 := Resting().(cas := [Found(1)])] == BothClaimed().threads;
    LeadsOn(s, [Start(1, 0)] + Owns(1, 2), m, [Start(1, 0)] + Owns(1, 4), BothClaimed());
  }

  function Drops2(): seq<Step> {
    [DropRef(0), FinishDrop(0)] + [DropRef(1), FinishDrop(1)]
  }

  lemma ToBothReserved()
    ensures Leads(BothClaimed(), ([Start(0, 0)] + Owns(0, 5)) + (Drops2() + Owns(0, 5)), BothReserved())
  {
    hide Leads, Owns, Exec, OwnStep, Enabled;
    var s := BothClaimed();
    BeginStep(s, 0);
    var s1 := With(s, 0, Begun(0));
    BothHeld(s1, 0);
    var th := EnterAddPass(Begun(0).(cas := [Found(1), Found(1)]));
    assert [] + [Found(1)] + [Found(1)] == [Found(1), Found(1)];
    var s2 := With(s1, 0, th);
    StepThen(s, Start(0, 0), Owns(0, 5), s2);
    DropSteps(s2, 0);
    var s3 := s2.(count := [0, 1], claims := s2.claims[0 := s2.claims[0].(phase := Released)]);
    assert s2.count[0 := 0] == s3.count;
    DropSteps(s3, 1);
    var s4 := s3.(count := [0, 0], claims := BothReserved().claims);
    assert s3.count[1 := 0] == s4.count;
    assert s3.claims[1 := s3.claims[1].(phase := Released)] == s4.claims;
    LeadsOn(s2, [DropRef(0), FinishDrop(0)], s3, [DropRef(1), FinishDrop(1)], s4);
    TakesBoth(s4, 0);
    assert With(s4, 0, TookBoth(th, 0, 0)).(count := [1, 1]) == BothReserved();
    LeadsOn(s2, Drops2(), s4, Owns(0, 5), BothReserved());
    LeadsOn(s, [Start(0, 0)] + Owns(0, 5), s2, Drops2() + Owns(0, 5), BothReserved());
  }

  /** From there thread 1 selects, and thread 0 ends its select. */
  function Race(): seq<Step> {
    (([Start(1, 0)] + Owns(1, 5)) + Owns(1, 5)) + (Owns(1, 3) + Owns(0, 3))
  }

  /** The two new claims, both on node 0. */
  function Doubled(): seq<Claim> {
    [Born(Made(0, ByReservation), 1), Born(Made(0, ByReservation), 0)]
  }

  /** Thread 1 has reserved both nodes on top of thread 0. */
  function AllReserved(): State {
    BothReserved().(count := [2, 2],
      threads := [BothReserved().threads[0], TookBoth(EnterAddPass(Begun(0).(cas := [Found(1), Found(1)])), 1, 1)])
  }

  lemma ToAllReserved()
    ensures Leads(BothReserved(), ([Start(1, 0)] + Owns(1, 5)) + Owns(1, 5), AllReserved())
  {
    hide Leads, Owns, Exec, OwnStep, Enabled;
    var s := BothReserved();
    BeginStep(s, 1);
    var s1 := With(s, 1, Begun(0));
    BothHeld(s1, 1);
    var th := EnterAddPass(Begun(0).(cas := [Found(1), Found(1)]));
    assert [] + [Found(1)] + [Found(1)] == [Found(1), Found(1)];
    var s2 := With(s1, 1, th);
    StepThen(s, Start(1, 0), Owns(1, 5), s2);
    TakesBoth(s2, 1);
    assert With(s2, 1, TookBoth(th, 1, 1)).(count := [2, 2]) == AllReserved();
    LeadsOn(s, [Start(1, 0)] + Owns(1, 5), s2, Owns(1, 5), AllReserved());
  }

  lemma RaceRuns() returns (e: State)
    ensures Leads(BothReserved(), Race(), e)
    ensures e.count == [2, 0] && e.claims == BothReserved().claims + Doubled() && e.healthy == [true, true]
    ensures e.threads[0].pc.Idle? && e.threads[1].pc.Idle?
  {
    hide Leads, Owns, Exec, OwnStep, Enabled, EnterAddPass;
    ToAllReserved();
    var s3 := AllReserved();
    KeepsNode0(s3, 1);
    var s4 := With(s3, 1, s3.threads[1].(pc := Idle)).(count := [2, 1], claims := s3.claims + [Doubled()[0]]);
    KeepsNode0(s4, 0);
    e := With(s4, 0, s4.threads[0].(pc := Idle)).(count := [2, 0], claims := s4.claims + [Doubled()[1]]);
    assert e.claims == BothReserved().claims + Doubled();
    LeadsOn(s3, Owns(1, 3), s4, Owns(0, 3), e);
    LeadsOn(BothReserved(), ([Start(1, 0)] + Owns(1, 5)) + Owns(1, 5), s3, Owns(1, 3) + Owns(0, 3), e);
  }

  /** A run from the start to `m`, where no claim is live, and on from there through one
      more select: two claims more, both on node 0 of two healthy nodes. */
  ghost predicate IsRace(before: seq<Step>, m: State, during: seq<Step>, e: State) {
    Init(Start2()) && Leads(Start2(), before, m) && Leads(m, during, e)
    && during != [] && during[0] == Start(1, 0) && Starts(during) == 1
    && ClaimsOn(m.claims, 0) == 0 && ClaimsOn(m.claims, 1) == 0
    && e.healthy == [true, true] && e.count == [2, 0] && e.claims == m.claims + Doubled()
  }

  /** A select that starts when no claim is live, over healthy nodes, ends on a node with
      a request while another has none and never had one in between: it and the select
      under way in the other thread took each other's reservations for requests. */
  lemma BusyNodeChosenOverIdle()
    ensures exists before, m, during, e :: IsRace(before, m, during, e)
  {
    hide Leads, Owns, Init, Starts, ClaimsOn;
    InitPair();
    ToBothClaimed();
    ToBothReserved();
    var e := RaceRuns();
    var xs := ([Start(1, 0)] + Owns(1, 2)) + ([Start(1, 0)] + Owns(1, 4));
    var ys := ([Start(0, 0)] + Owns(0, 5)) + (Drops2() + Owns(0, 5));
    LeadsOn(Start2(), xs, BothClaimed(), ys, BothReserved());
    NoneLive();
    OneStart();
    assert Race()[0] == Start(1, 0);
    assert IsRace(xs + ys, BothReserved(), Race(), e);
  }

  lemma InitPair()
    ensures Init(Start2())
  {}

  lemma NoneLive()
    ensures ClaimsOn(BothReserved().claims, 0) == 0 && ClaimsOn(BothReserved().claims, 1) == 0
  {
    var cs := BothReserved().claims;
    assert cs[1..][1..] == [];
  }

  lemma {:induction false} StartsConcat(xs: seq<Step>, ys: seq<Step>)
    ensures Starts(xs + ys) == Starts(xs) + Starts(ys)
    decreases |xs|
  {
    if xs == [] {
      assert xs + ys == ys;
    } else {
      StartsConcat(xs[1..], ys);
      assert (xs + ys)[1..] == xs[1..] + ys;
    }
  }

  lemma {:induction false} OwnsStartNothing(t: nat, k: nat)
    ensures Starts(Owns(t, k)) == 0
    decreases k
  {
    if k > 0 {
      OwnsStartNothing(t, k - 1);
      assert ([Own(t)] + Owns(t, k - 1))[1..] == Owns(t, k - 1);
    }
  }

  lemma OneStart()
    ensures Starts(Race()) == 1
  {
    hide Owns;
    OwnsStartNothing(1, 5);
    OwnsStartNothing(1, 3);
    OwnsStartNothing(0, 3);
    assert ([Start(1, 0)] + Owns(1, 5))[1..] == Owns(1, 5);
    StartsConcat(Owns(1, 3), Owns(0, 3));
    StartsConcat([Start(1, 0)] + Owns(1, 5), Owns(1, 5));
    StartsConcat(([Start(1, 0)] + Owns(1, 5)) + Owns(1, 5), Owns(1, 3) + Owns(0, 3));
  }
}
