/** `PriorityFreeBalancer::select` and the guards it hands out, as a transition
    system: any number of threads, one step per atomic operation or health read,
    interleaved in any order (llama-proxy/src/backends/priority_free.rs:46-110 and
    llama-proxy/src/backends/balancer.rs:16-61). */
module SelectProtocol {
  import opened Options
  import opened Machine

  /** A counter: an `AtomicUsize`, which wraps. */
  type Usize = n: nat | n <= USIZE_MAX witness 0

  type Instant = int

  function FetchAdd(c: Usize): Usize {
    if c == USIZE_MAX then 0 else c + 1
  }

  function FetchSub(c: Usize): Usize {
    if c == 0 then USIZE_MAX else c - 1
  }

  /** Both are arithmetic modulo the counter's range. */
  lemma FetchesWrap(c: Usize)
    ensures FetchAdd(c) == (c + 1) % 0x1_0000_0000_0000_0000
    ensures FetchSub(c) == (c + 0xFFFF_FFFF_FFFF_FFFF) % 0x1_0000_0000_0000_0000
  {}

  /** How a claim's +1 was recorded. */
  datatype Origin = ByCas | ByReservation | ByFallback

  /** One `Arc<BusyHandle>`: held by `refs` guard clones; its last clone gone but
      `fetch_sub` still to run; `fetch_sub` having found 0, the undo still to run;
      done. */
  datatype Phase = Held(refs: nat) | Dropping | Undoing | Released

  datatype Claim = Claim(node: nat, origin: Origin, phase: Phase, maker: nat) {
    predicate Live() {
      phase.Held? || phase.Dropping?
    }
  }

  /** The next thing a thread does. The Cas and Add passes visit node `k` by
      reading its health flag, then if that is down its expiry, then its counter. */
  datatype Pc =
    | Idle
    | CasHealth(k: nat) | CasExpiry(k: nat) | CasTry(k: nat)
    | AddHealth(k: nat) | AddExpiry(k: nat) | AddTry(k: nat)
    | Release(p: nat)
    | Scan(k: nat, sel: nat, at: Instant)
    | FallbackAdd(sel: nat)

  /** What a pass found at a node: excluded until then, or a counter. */
  datatype Visit = Cooled(until: Instant) | Found(load: Usize)

  /** A thread's locals, and what they came from: `loads` is the load found at each
      reservation, `cas` and `add` what the two passes found at each node. */
  datatype Thread = Thread(
    pc: Pc, now: Instant, reserved: seq<nat>, loads: seq<Usize>, best: Option<nat>, bestLoad: Usize,
    cas: seq<Visit>, add: seq<Visit>)

  datatype State = State(
    count: seq<Usize>, healthy: seq<bool>, until: seq<Instant>, threads: seq<Thread>, claims: seq<Claim>)

  datatype Step =
    | Start(t: nat, now: Instant)
    | Own(t: nat)
    | Clone(c: nat)
    | DropRef(c: nat)
    | FinishDrop(c: nat)
    | SetHealthy(i: nat, up: bool)
    | SetExpiry(i: nat, at: Instant)

  // ---------- steps ----------

  predicate PcFits(pc: Pc, n: nat, nReserved: nat) {
    match pc
    case Idle => true
    case CasHealth(k) => k <= n
    case CasExpiry(k) => k < n
    case CasTry(k) => k < n
    case AddHealth(k) => k <= n
    case AddExpiry(k) => k < n
    case AddTry(k) => k < n
    case Release(p) => p <= nReserved
    case Scan(k, sel, _) => k <= n && (k > 0 ==> sel < k)
    case FallbackAdd(sel) => sel < n
  }

  predicate ThreadFits(t: Thread, n: nat) {
    PcFits(t.pc, n, |t.reserved|)
    && (forall j :: 0 <= j < |t.reserved| ==> t.reserved[j] < n)
    && |t.loads| == |t.reserved|
    && (t.best.Some? ==> t.best.value < n)
    && (t.pc.Release? ==> t.best.Some?)
  }

  /** The shape every state has; `new` rejects an empty node list. */
  predicate Fits(s: State) {
    |s.count| == |s.healthy| == |s.until| >= 1
    && (forall t :: 0 <= t < |s.threads| ==> ThreadFits(s.threads[t], |s.count|))
    && (forall c :: 0 <= c < |s.claims| ==> s.claims[c].node < |s.count|)
  }

  predicate Enabled(s: State, e: Step) {
    match e
    case Start(t, _) => t < |s.threads| && s.threads[t].pc.Idle?
    case Own(t) => t < |s.threads| && !s.threads[t].pc.Idle?
    case Clone(c) => c < |s.claims| && s.claims[c].phase.Held? && s.claims[c].phase.refs >= 1
    case DropRef(c) => c < |s.claims| && s.claims[c].phase.Held? && s.claims[c].phase.refs >= 1
    case FinishDrop(c) => c < |s.claims| && (s.claims[c].phase.Dropping? || s.claims[c].phase.Undoing?)
    case SetHealthy(i, _) => i < |s.healthy|
    case SetExpiry(i, _) => i < |s.until|
  }

  /** A claim about to be made. */
  datatype Made = Made(node: nat, origin: Origin)

  /** A thread's step: its own locals, and at most one counter or one new claim. */
  datatype Effect = Effect(thread: Thread, count: seq<Usize>, claim: Option<Made>)

  /** A new claim is held by the guard its select returns. */
  function Born(m: Made, maker: nat): Claim {
    Claim(m.node, m.origin, Held(1), maker)
  }

  function Quiet(t: Thread, count: seq<Usize>): Effect {
    Effect(t, count, None)
  }

  function Claimed(t: Thread, count: seq<Usize>, node: nat, origin: Origin): Effect {
    Effect(t.(pc := Idle), count, Some(Made(node, origin)))
  }

  function Begun(now: Instant): Thread {
    Thread(CasHealth(0), now, [], [], None, USIZE_MAX, [], [])
  }

  function EnterAddPass(t: Thread): Thread {
    t.(pc := AddHealth(0), reserved := [], loads := [], best := None, bestLoad := USIZE_MAX, add := [])
  }

  /** `load` was found at node `k` by the reserving `fetch_add`. */
  function Reserve(t: Thread, k: nat, load: Usize): Thread {
    var t' := t.(pc := AddHealth(k + 1), reserved := t.reserved + [k], loads := t.loads + [load],
                 add := t.add + [Found(load)]);
    if load < t.bestLoad then t'.(best := Some(k), bestLoad := load) else t'
  }

  function OwnStep(s: State, t: Thread): (r: Effect)
    requires Fits(s) && ThreadFits(t, |s.count|) && !t.pc.Idle?
    ensures ThreadFits(r.thread, |s.count|) && |r.count| == |s.count|
    ensures r.claim.Some? <==> r.thread.pc.Idle?
    ensures r.claim.Some? ==> r.claim.value.node < |s.count|
  {
    var n := |s.count|;
    match t.pc
    case CasHealth(k) =>
      if k == n then Quiet(EnterAddPass(t), s.count)
      else Quiet(t.(pc := if s.healthy[k] then CasTry(k) else CasExpiry(k)), s.count)
    case CasExpiry(k) =>
      Quiet(if t.now < s.until[k] then t.(pc := CasHealth(k + 1), cas := t.cas + [Cooled(s.until[k])])
            else t.(pc := CasTry(k)), s.count)
    case CasTry(k) =>
      if s.count[k] == 0 then Claimed(t, s.count[k := 1], k, ByCas)
      else Quiet(t.(pc := CasHealth(k + 1), cas := t.cas + [Found(s.count[k])]), s.count)
    case AddHealth(k) =>
      if k == n then Quiet(t.(pc := if t.best.Some? then Release(0) else Scan(0, 0, 0)), s.count)
      else Quiet(t.(pc := if s.healthy[k] then AddTry(k) else AddExpiry(k)), s.count)
    case AddExpiry(k) =>
      Quiet(if t.now < s.until[k] then t.(pc := AddHealth(k + 1), add := t.add + [Cooled(s.until[k])])
            else t.(pc := AddTry(k)), s.count)
    case AddTry(k) =>
      Quiet(Reserve(t, k, s.count[k]), s.count[k := FetchAdd(s.count[k])])
    case Release(p) =>
      if p == |t.reserved| then Claimed(t, s.count, t.best.value, ByReservation)
      else
        var i := t.reserved[p];
        Quiet(t.(pc := Release(p + 1)),
              if i != t.best.value then s.count[i := FetchSub(s.count[i])] else s.count)
    case Scan(k, sel, at) =>
      if k == n then Quiet(t.(pc := FallbackAdd(sel)), s.count)
      else if k == 0 || s.until[k] < at then Quiet(t.(pc := Scan(k + 1, k, s.until[k])), s.count)
      else Quiet(t.(pc := Scan(k + 1, sel, at)), s.count)
    case FallbackAdd(sel) =>
      Claimed(t, s.count[sel := FetchAdd(s.count[sel])], sel, ByFallback)
  }

  function WithThread(s: State, t: nat, th: Thread): (s': State)
    requires Fits(s) && t < |s.threads| && ThreadFits(th, |s.count|)
    ensures Fits(s')
  {
    s.(threads := s.threads[t := th])
  }

  function WithPhase(s: State, c: nat, phase: Phase): (s': State)
    requires Fits(s) && c < |s.claims|
    ensures Fits(s')
  {
    s.(claims := s.claims[c := s.claims[c].(phase := phase)])
  }

  function WithCount(s: State, i: nat, n: Usize): (s': State)
    requires Fits(s) && i < |s.count|
    ensures Fits(s')
  {
    s.(count := s.count[i := n])
  }

  function Apply(s: State, t: nat, r: Effect): (s': State)
    requires Fits(s) && t < |s.threads| && ThreadFits(r.thread, |s.count|) && |r.count| == |s.count|
    requires r.claim.Some? ==> r.claim.value.node < |s.count|
    ensures Fits(s')
  {
    var s' := WithThread(s, t, r.thread).(count := r.count);
    if r.claim.None? then s' else s'.(claims := s.claims + [Born(r.claim.value, t)])
  }

  function Exec(s: State, e: Step): (s': State)
    requires Fits(s) && Enabled(s, e)
    ensures Fits(s') && |s'.count| == |s.count| && |s'.threads| == |s.threads|
  {
    match e
    case Start(t, now) => WithThread(s, t, Begun(now))
    case Own(t) => Apply(s, t, OwnStep(s, s.threads[t]))
    case Clone(c) => WithPhase(s, c, Held(s.claims[c].phase.refs + 1))
    case DropRef(c) =>
      var refs := s.claims[c].phase.refs;
      WithPhase(s, c, if refs == 1 then Dropping else Held(refs - 1))
    case FinishDrop(c) =>
      var i := s.claims[c].node;
      if s.claims[c].phase.Dropping? then
        WithPhase(WithCount(s, i, FetchSub(s.count[i])), c, if s.count[i] == 0 then Undoing else Released)
      else
        WithPhase(WithCount(s, i, FetchAdd(s.count[i])), c, Released)
    case SetHealthy(i, up) => s.(healthy := s.healthy[i := up])
    case SetExpiry(i, at) => s.(until := s.until[i := at])
  }

  predicate Init(s: State) {
    Fits(s) && s.claims == []
    && (forall i :: 0 <= i < |s.count| ==> s.count[i] == 0)
    && (forall t :: 0 <= t < |s.threads| ==>
          s.threads[t].pc.Idle? && s.threads[t].reserved == [] && s.threads[t].loads == [])
  }

  // ---------- who holds what ----------

  /** The thread still holds a +1 on node `i` that no claim stands for yet. */
  ghost predicate Holds(t: Thread, i: nat) {
    match t.pc
    case Idle => false
    case CasHealth(_) => false
    case CasExpiry(_) => false
    case CasTry(_) => false
    case AddHealth(_) => i in t.reserved
    case AddExpiry(_) => i in t.reserved
    case AddTry(_) => i in t.reserved
    case Release(p) => i in t.reserved && (t.best == Some(i) || p > |t.reserved| || i in t.reserved[p..])
    case Scan(_, _, _) => i in t.reserved
    case FallbackAdd(_) => i in t.reserved
  }

  ghost function Reserved(ts: seq<Thread>, i: nat): nat {
    if ts == [] then 0 else (if Holds(ts[0], i) then 1 else 0) + Reserved(ts[1..], i)
  }

  function ClaimsOn(cs: seq<Claim>, i: nat): nat {
    if cs == [] then 0 else (if cs[0].node == i && cs[0].Live() then 1 else 0) + ClaimsOn(cs[1..], i)
  }

  function CasClaimsOn(cs: seq<Claim>, i: nat): nat {
    if cs == [] then 0
    else (if cs[0].node == i && cs[0].Live() && cs[0].origin.ByCas? then 1 else 0) + CasClaimsOn(cs[1..], i)
  }

  /** Live claims on node `i` plus the reservations mid-select threads hold there. */
  ghost function Holders(s: State, i: nat): nat {
    ClaimsOn(s.claims, i) + Reserved(s.threads, i)
  }

  /** Claims live on the heap and reservations in threads: no node ever has
      `usize::MAX` of them. */
  ghost predicate Room(s: State) {
    forall i :: 0 <= i < |s.count| ==> Holders(s, i) < USIZE_MAX
  }

  // ---------- what is invariant ----------

  /** A select reserves each node at most once, in index order. */
  ghost predicate Increasing(xs: seq<nat>) {
    forall j, k :: 0 <= j < k < |xs| ==> xs[j] < xs[k]
  }

  ghost predicate IsFirstLeast(t: Thread, b: nat, j: nat) {
    j < |t.reserved| == |t.loads| && t.reserved[j] == b && t.loads[j] == t.bestLoad < USIZE_MAX
    && (forall k :: 0 <= k < j ==> t.loads[k] > t.bestLoad)
    && (forall k :: j < k < |t.loads| ==> t.loads[k] >= t.bestLoad)
  }

  /** `best` is the first reserved node with the least load at arrival; it is
      missing only when every load was `usize::MAX`. */
  ghost predicate BestIsLeast(t: Thread) {
    match t.best
    case None => t.bestLoad == USIZE_MAX && forall j :: 0 <= j < |t.loads| ==> t.loads[j] == USIZE_MAX
    case Some(b) => exists j :: IsFirstLeast(t, b, j)
  }

  predicate InAddPass(pc: Pc) {
    pc.AddHealth? || pc.AddExpiry? || pc.AddTry?
  }

  predicate InFallback(pc: Pc) {
    pc.Scan? || pc.FallbackAdd?
  }

  /** What a thread's locals satisfy whatever the other threads do. */
  ghost predicate ThreadInv(t: Thread) {
    Increasing(t.reserved) && |t.loads| == |t.reserved|
    && (InAddPass(t.pc) ==>
          BestIsLeast(t) && |t.reserved| <= t.pc.k && forall j :: 0 <= j < |t.reserved| ==> t.reserved[j] < t.pc.k)
    && (t.pc.Release? ==> BestIsLeast(t) && t.best.Some? && t.pc.p <= |t.reserved|)
    && (InFallback(t.pc) ==> t.best.None? && BestIsLeast(t))
  }

  /** No load a thread ever found was `usize::MAX`. */
  ghost predicate LoadsBelowMax(t: Thread) {
    forall j :: 0 <= j < |t.loads| ==> t.loads[j] < USIZE_MAX
  }

  ghost predicate ClaimInv(c: Claim) {
    !c.phase.Undoing? && (c.phase.Held? ==> c.phase.refs >= 1)
  }

  ghost predicate ThreadsInv(s: State) {
    forall t :: 0 <= t < |s.threads| ==> ThreadInv(s.threads[t]) && LoadsBelowMax(s.threads[t])
  }

  /** Every counter equals the claims and reservations it stands for. */
  ghost predicate Conserved(s: State) {
    forall i :: 0 <= i < |s.count| ==> s.count[i] == Holders(s, i)
  }

  ghost predicate OneCasClaim(s: State) {
    forall i :: 0 <= i < |s.count| ==> CasClaimsOn(s.claims, i) <= 1
  }

  ghost predicate ClaimsInv(s: State) {
    forall c :: 0 <= c < |s.claims| ==> ClaimInv(s.claims[c])
  }

  ghost predicate Inv(s: State) {
    Fits(s) && ThreadsInv(s) && Conserved(s) && OneCasClaim(s) && ClaimsInv(s)
  }

  // ---------- runs ----------

  ghost predicate EnabledAlong(s: State, steps: seq<Step>)
    requires Fits(s)
    decreases |steps|
  {
    steps == [] || (Enabled(s, steps[0]) && EnabledAlong(Exec(s, steps[0]), steps[1..]))
  }

  ghost function Run(s: State, steps: seq<Step>): (s': State)
    requires Fits(s) && EnabledAlong(s, steps)
    ensures Fits(s') && |s'.count| == |s.count| && |s'.threads| == |s.threads|
    decreases |steps|
  {
    if steps == [] then s else Run(Exec(s, steps[0]), steps[1..])
  }

  /** Every state of the run but the last has room. */
  ghost predicate RoomAlong(s: State, steps: seq<Step>)
    requires Fits(s) && EnabledAlong(s, steps)
    decreases |steps|
  {
    steps == [] || (Room(s) && RoomAlong(Exec(s, steps[0]), steps[1..]))
  }
}
