/** The prompt file cache keyed by modification time (llama-proxy/src/prompt_cache.rs). */
module PromptCache {
  import opened Options

  type Time = nat

  /** Unicode White_Space, what `trim` strips. */
  predicate IsWhite(c: char) {
    '\t' <= c <= '\r' || c == ' ' || c == '\U{85}' || c == '\U{A0}' || c == '\U{1680}'
    || '\U{2000}' <= c <= '\U{200A}' || c == '\U{2028}' || c == '\U{2029}' || c == '\U{202F}'
    || c == '\U{205F}' || c == '\U{3000}'
  }

  predicate IsBlank(s: string) {
    forall k :: 0 <= k < |s| ==> IsWhite(s[k])
  }

  /** The code points that `trim` strips. */
  lemma WhiteSpaceIs(c: char)
    ensures IsWhite(c) <==>
            c as int in {0x09, 0x0A, 0x0B, 0x0C, 0x0D, 0x20, 0x85, 0xA0, 0x1680, 0x2000, 0x2001, 0x2002, 0x2003, 0x2004,
                         0x2005, 0x2006, 0x2007, 0x2008, 0x2009, 0x200A, 0x2028, 0x2029, 0x202F, 0x205F, 0x3000}
  {}

  datatype Refresh =
    | Reloaded(text: string, mtime: Option<Time>)
    | Unchanged
    | Empty
    | Failed

  /** The cache as its methods run when nothing interleaves with them. A stat gives
      the file's time, which some file systems do not report, and a read gives its
      text; either is missing when the call fails. */
  class PromptFileCache {
    var text: string
    var mtime: Option<Time>

    constructor (initialText: string, initialMtime: Option<Time>)
      ensures text == initialText && mtime == initialMtime
    {
      text := initialText;
      mtime := initialMtime;
    }

    /** Only a reload moves the cache, and it moves both fields to what it returns;
        the file is not even read when its time is the cached one. */
    method Refresh(stat: Option<Option<Time>>, read: Option<string>) returns (r: Refresh)
      modifies this
      ensures r.Unchanged? <==> stat.Some? && stat.value.Some? && old(mtime) == stat.value
      ensures r.Failed? <==> stat.None? || (!r.Unchanged? && read.None?)
      ensures r.Empty? <==> !r.Unchanged? && !r.Failed? && IsBlank(read.value)
      ensures r.Reloaded? ==> r == Reloaded(read.value, stat.value) && text == r.text && mtime == r.mtime
      ensures !r.Reloaded? ==> text == old(text) && mtime == old(mtime)
    {
      if stat.None? {
        return Failed;
      }
      match stat.value {
        case Some(current) =>
          if mtime == Some(current) {
            return Unchanged;
          }
          r := ReadAndStore(read, Some(current));
        case None =>
          r := ReadAndStore(read, None);
      }
    }

    method ReadAndStore(read: Option<string>, current: Option<Time>) returns (r: Refresh)
      modifies this
      ensures r.Failed? <==> read.None?
      ensures r.Empty? <==> read.Some? && IsBlank(read.value)
      ensures read.Some? && !IsBlank(read.value) ==>
                r == Reloaded(read.value, current) && text == read.value && mtime == current
      ensures !r.Reloaded? ==> text == old(text) && mtime == old(mtime)
      ensures !r.Unchanged?
    {
      if read.None? {
        return Failed;
      }
      if IsBlank(read.value) {
        return Empty;
      }
      text := read.value;
      mtime := current;
      return Reloaded(read.value, current);
    }
  }

  // ---------- one file, one cache, refreshers and writers ----------

  /** Where a refresh stands: each step up to the next is one file call or one access
      to a locked field. */
  datatype Pc =
    | Idle
    | Compare(current: Time)
    | Read(stamp: Option<Time>)
    | StoreText(text: string, stamp: Option<Time>)
    | StoreMtime(stamp: Option<Time>)

  /** `file` is the time of what is at the path now; `texts` keeps what each time
      ever written stands for. */
  datatype State = State(
    file: Option<Time>,
    texts: map<Time, string>,
    text: string,
    mtime: Option<Time>,
    refreshers: seq<Pc>)

  /** A write gives the file a text and a time; a refresher's next operation may
      fail at the file system, or find no time there. */
  datatype Step =
    | Write(text: string, time: Time)
    | Remove
    | Advance(r: nat, timed: bool, fails: bool)

  ghost predicate Fits(s: State) {
    s.file.Some? ==> s.file.value in s.texts
  }

  /** Every write takes a time no write took before. */
  predicate Enabled(s: State, step: Step) {
    match step
    case Write(_, time) => time !in s.texts
    case Remove => true
    case Advance(r, _, _) => r < |s.refreshers|
  }

  function Put(s: State, r: nat, pc: Pc): State
    requires r < |s.refreshers|
  {
    s.(refreshers := s.refreshers[r := pc])
  }

  function Next(s: State, r: nat, timed: bool, fails: bool): State
    requires Fits(s) && r < |s.refreshers|
  {
    match s.refreshers[r]
    case Idle =>
      if fails || s.file.None? then s
      else if timed then Put(s, r, Compare(s.file.value))
      else Put(s, r, Read(None))
    case Compare(current) =>
      Put(s, r, if s.mtime == Some(current) then Idle else Read(Some(current)))
    case Read(stamp) =>
      if fails || s.file.None? || IsBlank(s.texts[s.file.value]) then Put(s, r, Idle)
      else Put(s, r, StoreText(s.texts[s.file.value], stamp))
    case StoreText(text, stamp) =>
      Put(s, r, StoreMtime(stamp)).(text := text)
    case StoreMtime(stamp) =>
      Put(s, r, Idle).(mtime := stamp)
  }

  function Exec(s: State, step: Step): (s': State)
    requires Fits(s) && Enabled(s, step)
    ensures Fits(s') && |s'.refreshers| == |s.refreshers|
  {
    match step
    case Write(text, time) => s.(file := Some(time), texts := s.texts[time := text])
    case Remove => s.(file := None)
    case Advance(r, timed, fails) => Next(s, r, timed, fails)
  }

  ghost predicate EnabledAlong(s: State, steps: seq<Step>)
    requires Fits(s)
    decreases |steps|
  {
    steps == [] || (Enabled(s, steps[0]) && EnabledAlong(Exec(s, steps[0]), steps[1..]))
  }

  ghost function Run(s: State, steps: seq<Step>): (s': State)
    requires Fits(s) && EnabledAlong(s, steps)
    ensures Fits(s') && |s'.refreshers| == |s.refreshers|
    decreases |steps|
  {
    if steps == [] then s else Run(Exec(s, steps[0]), steps[1..])
  }

  // ---------- what a cached time promises ----------

  /** The cached time being the file's, the cached text is the file's. */
  ghost predicate Current(s: State)
    requires Fits(s)
  {
    s.mtime.Some? && s.file == s.mtime ==> s.text == s.texts[s.file.value]
  }

  /** The file has moved on from the cached time. */
  ghost predicate Outdated(s: State) {
    s.mtime.Some? ==> s.file != s.mtime
  }

  /** At most one refresher is under way. */
  ghost predicate Serial(s: State) {
    forall q, r :: 0 <= q < r < |s.refreshers| ==> s.refreshers[q].Idle? || s.refreshers[r].Idle?
  }

  ghost predicate Known(s: State, stamp: Option<Time>) {
    stamp.Some? ==> stamp.value in s.texts
  }

  /** `t` may go into the cache under `stamp`. */
  ghost predicate Storable(s: State, t: string, stamp: Option<Time>)
    requires Fits(s)
  {
    Known(s, stamp)
    && (stamp.Some? ==> Outdated(s) && (s.file == stamp ==> t == s.texts[s.file.value]))
    && (s.mtime.Some? && s.file == s.mtime ==> t == s.texts[s.file.value])
  }

  ghost predicate PcInv(s: State, pc: Pc)
    requires Fits(s)
  {
    match pc
    case Idle => true
    case Compare(current) =>
      current in s.texts && if s.mtime == Some(current) then s.text == s.texts[current] else Outdated(s)
    case Read(stamp) => Known(s, stamp) && (stamp.Some? ==> Outdated(s))
    case StoreText(t, stamp) => Storable(s, t, stamp)
    case StoreMtime(stamp) => Storable(s, s.text, stamp)
  }

  ghost predicate Inv(s: State) {
    Fits(s) && Serial(s) && Known(s, s.mtime) && Current(s)
    && forall r :: 0 <= r < |s.refreshers| ==> PcInv(s, s.refreshers[r])
  }

  /** A cache as `new` leaves it: empty of a time, or holding a time of the file with
      the text it stood for; nobody is refreshing. */
  ghost predicate Init(s: State) {
    Fits(s) && (s.mtime.Some? ==> s.mtime.value in s.texts && s.text == s.texts[s.mtime.value])
    && forall r :: 0 <= r < |s.refreshers| ==> s.refreshers[r].Idle?
  }

  lemma InitInv(s: State)
    requires Init(s)
    ensures Inv(s)
  {}

  lemma WriteKeepsPc(s: State, step: Step, pc: Pc)
    requires Fits(s) && Known(s, s.mtime) && Enabled(s, step) && !step.Advance? && PcInv(s, pc)
    ensures PcInv(Exec(s, step), pc)
  {}

  lemma OwnStepKeeps(s: State, r: nat, timed: bool, fails: bool)
    requires Inv(s) && r < |s.refreshers|
    ensures var s' := Next(s, r, timed, fails);
            Fits(s') && Known(s', s'.mtime) && Current(s') && PcInv(s', s'.refreshers[r])
  {
    assert PcInv(s, s.refreshers[r]);
  }

  lemma StepKeepsInv(s: State, step: Step)
    requires Inv(s) && Enabled(s, step) && Serial(Exec(s, step))
    ensures Inv(Exec(s, step))
  {
    hide PcInv, Outdated;
    match step
    case Advance(r, timed, fails) =>
      OwnStepKeeps(s, r, timed, fails);
      IdleIsFree(Next(s, r, timed, fails));
      OthersAreIdle(s, step);
    case _ =>
      forall q | 0 <= q < |s.refreshers| ensures PcInv(Exec(s, step), s.refreshers[q]) {
        WriteKeepsPc(s, step, s.refreshers[q]);
      }
  }

  lemma IdleIsFree(s: State)
    requires Fits(s)
    ensures PcInv(s, Idle)
  {}

  lemma OthersAreIdle(s: State, step: Step)
    requires Fits(s) && Serial(s) && step.Advance? && Enabled(s, step) && Serial(Exec(s, step))
    ensures Exec(s, step) == s
            || forall q :: 0 <= q < |s.refreshers| && q != step.r ==> Exec(s, step).refreshers[q].Idle?
  {
    hide Serial;
    var s' := Exec(s, step);
    if s' != s {
      forall q | 0 <= q < |s.refreshers| && q != step.r ensures s'.refreshers[q].Idle? {
        assert s.refreshers[q] == s'.refreshers[q];
        OneOfTwoIdle(s, q, step.r);
        OneOfTwoIdle(s', q, step.r);
      }
    }
  }

  lemma OneOfTwoIdle(s: State, q: nat, r: nat)
    requires Serial(s) && q < |s.refreshers| && r < |s.refreshers| && q != r
    ensures s.refreshers[q].Idle? || s.refreshers[r].Idle?
  {}

  ghost predicate SerialAlong(s: State, steps: seq<Step>)
    requires Fits(s) && EnabledAlong(s, steps)
    decreases |steps|
  {
    Serial(s) && (steps == [] || SerialAlong(Exec(s, steps[0]), steps[1..]))
  }

  /** As long as refreshes of one cache do not overlap, whatever the writers do
      between their stats, reads and stores, a cached time that is the file's stands
      for the file's text. */
  lemma {:induction false} CachedTimeIsCurrent(s: State, steps: seq<Step>)
    requires Inv(s) && EnabledAlong(s, steps) && SerialAlong(s, steps)
    ensures Inv(Run(s, steps)) && Current(Run(s, steps))
    decreases |steps|
  {
    hide Inv, Serial;
    if steps != [] {
      InvMeansCurrent(s);
      StepKeepsInvHidden(s, steps[0], steps[1..]);
      CachedTimeIsCurrent(Exec(s, steps[0]), steps[1..]);
    } else {
      InvMeansCurrent(s);
    }
  }

  lemma StepKeepsInvHidden(s: State, step: Step, rest: seq<Step>)
    requires Inv(s) && Enabled(s, step)
    requires EnabledAlong(Exec(s, step), rest) && SerialAlong(Exec(s, step), rest)
    ensures Inv(Exec(s, step))
  {
    StepKeepsInv(s, step);
  }

  lemma InvMeansCurrent(s: State)
    requires Inv(s)
    ensures Fits(s) && Current(s)
  {}

  /** A refresh that reports `Unchanged` has in the cache the text the file held when
      it was looked at, even if the file was overwritten since. */
  lemma UnchangedIsNeverStale(s: State, steps: seq<Step>, r: nat)
    requires Init(s) && EnabledAlong(s, steps) && SerialAlong(s, steps) && r < |s.refreshers|
    requires Run(s, steps).refreshers[r].Compare?
    ensures var e := Run(s, steps);
            var current := e.refreshers[r].current;
            current in e.texts && (e.mtime == Some(current) ==> e.text == e.texts[current])
  {
    InitInv(s);
    CachedTimeIsCurrent(s, steps);
    assert PcInv(Run(s, steps), Run(s, steps).refreshers[r]);
  }

  /** Where `n` undisturbed steps of one refresher lead. */
  ghost function After(s: State, r: nat, timed: bool, n: nat): (s': State)
    requires Fits(s) && r < |s.refreshers|
    ensures Fits(s') && |s'.refreshers| == |s.refreshers|
  {
    if n == 0 then s else Exec(After(s, r, timed, n - 1), Advance(r, timed, false))
  }

  /** A refresh undisturbed from its stat on leaves the text of a file that is not
      blank in the cache, and with it the file's time where there is one. */
  lemma UndisturbedRefreshIsCurrent(s: State, r: nat, timed: bool)
    requires Inv(s) && r < |s.refreshers| && s.refreshers[r].Idle?
    requires s.file.Some? && !IsBlank(s.texts[s.file.value])
    ensures exists n :: 0 < n <= 5 && EnabledAlong(s, Alone(r, timed, n))
              && var e := Run(s, Alone(r, timed, n));
                 e.refreshers == s.refreshers && e.text == s.texts[s.file.value] && (timed ==> e.mtime == s.file)
  {
    hide Run, EnabledAlong, Alone, IsBlank, Exec, After;
    assert Current(s);
    AloneRuns(s, r, timed, 2);
    AloneRuns(s, r, timed, 4);
    AloneRuns(s, r, timed, 5);
    AfterNext(s, r, timed);
    var text := s.texts[s.file.value];
    if timed && s.mtime == s.file {
      assert After(s, r, timed, 1) == Put(s, r, Compare(s.file.value));
      assert After(s, r, timed, 2) == s;
    } else if timed {
      assert After(s, r, timed, 1) == Put(s, r, Compare(s.file.value));
      assert After(s, r, timed, 2) == Put(s, r, Read(s.file));
      assert After(s, r, timed, 3) == Put(s, r, StoreText(text, s.file));
      assert After(s, r, timed, 4) == Put(s, r, StoreMtime(s.file)).(text := text);
      assert After(s, r, timed, 5) == s.(text := text, mtime := s.file);
    } else {
      assert After(s, r, timed, 1) == Put(s, r, Read(None));
      assert After(s, r, timed, 2) == Put(s, r, StoreText(text, None));
      assert After(s, r, timed, 3) == Put(s, r, StoreMtime(None)).(text := text);
      assert After(s, r, timed, 4) == s.(text := text, mtime := None);
    }
  }

  lemma AfterNext(s: State, r: nat, timed: bool)
    requires Fits(s) && r < |s.refreshers|
    ensures After(s, r, timed, 0) == s
    ensures After(s, r, timed, 1) == Next(s, r, timed, false)
    ensures After(s, r, timed, 2) == Next(After(s, r, timed, 1), r, timed, false)
    ensures After(s, r, timed, 3) == Next(After(s, r, timed, 2), r, timed, false)
    ensures After(s, r, timed, 4) == Next(After(s, r, timed, 3), r, timed, false)
    ensures After(s, r, timed, 5) == Next(After(s, r, timed, 4), r, timed, false)
  {
    assert After(s, r, timed, 0) == s;
  }

  /** `n` steps of one refresher with nothing between them. */
  function Alone(r: nat, timed: bool, n: nat): (steps: seq<Step>)
    ensures |steps| == n
  {
    if n == 0 then [] else [Advance(r, timed, false)] + Alone(r, timed, n - 1)
  }

  lemma {:induction false} AloneRuns(s: State, r: nat, timed: bool, n: nat)
    requires Fits(s) && r < |s.refreshers|
    ensures EnabledAlong(s, Alone(r, timed, n)) && Run(s, Alone(r, timed, n)) == After(s, r, timed, n)
    decreases n
  {
    if n > 0 {
      var s' := Exec(s, Advance(r, timed, false));
      AloneRuns(s', r, timed, n - 1);
      assert Alone(r, timed, n)[1..] == Alone(r, timed, n - 1);
      AfterFirst(s, r, timed, n);
    }
  }

  lemma {:induction false} AfterFirst(s: State, r: nat, timed: bool, n: nat)
    requires Fits(s) && r < |s.refreshers| && n > 0
    ensures After(s, r, timed, n) == After(Exec(s, Advance(r, timed, false)), r, timed, n - 1)
  {
    hide Exec;
    if n > 1 {
      AfterFirst(s, r, timed, n - 1);
    }
  }

  /** A stat or read that fails ends the refresh, and so does a missing or blank file;
      the cache is as it was. */
  lemma FailedRefreshKeeps(s: State, r: nat, timed: bool, fails: bool)
    requires Fits(s) && r < |s.refreshers| && (s.refreshers[r].Idle? || s.refreshers[r].Read?)
    requires fails || s.file == None || (s.refreshers[r].Read? && IsBlank(s.texts[s.file.value]))
    ensures Next(s, r, timed, fails) == s.(refreshers := s.refreshers[r := Idle])
  {
    hide IsBlank;
  }

  // ---------- where the cached text comes from ----------

  /** Something the file once held that was not blank. */
  ghost predicate Written(s: State, t: string) {
    t in s.texts.Values && !IsBlank(t)
  }

  ghost predicate FromFile(s: State, initial: string) {
    Fits(s) && (s.text == initial || Written(s, s.text))
    && forall r :: 0 <= r < |s.refreshers| && s.refreshers[r].StoreText? ==> Written(s, s.refreshers[r].text)
  }

  lemma StepKeepsFromFile(s: State, step: Step, initial: string)
    requires FromFile(s, initial) && Enabled(s, step)
    ensures FromFile(Exec(s, step), initial)
  {
    hide IsBlank;
    match step
    case Write(text, time) =>
      forall t | Written(s, t) ensures Written(Exec(s, step), t) {
        var m :| m in s.texts && s.texts[m] == t;
        assert s.texts[time := text][m] == t;
      }
    case _ =>
  }

  /** However many refreshes overlap, a failing, missing or blank file never wipes the
      cache: its text is the initial one or one the file once held. */
  lemma {:induction false} BlankNeverCached(s: State, steps: seq<Step>, initial: string)
    requires FromFile(s, initial) && EnabledAlong(s, steps)
    ensures Run(s, steps).text == initial || Written(Run(s, steps), Run(s, steps).text)
    decreases |steps|
  {
    if steps != [] {
      StepKeepsFromFile(s, steps[0], initial);
      BlankNeverCached(Exec(s, steps[0]), steps[1..], initial);
    }
  }

  // ---------- where the promise ends ----------

  /** `n` refreshers of which the first two may be under way. */
  function Two(n: nat, a: Pc, b: Pc): (rs: seq<Pc>)
    requires n >= 2
    ensures |rs| == n && rs[0] == a && rs[1] == b && forall r :: 2 <= r < n ==> rs[r] == Idle
  {
    [a, b] + seq(n - 2, _ => Idle)
  }

  lemma TwoMoves(n: nat)
    requires n >= 2
    ensures forall a, b, c :: Two(n, a, b)[0 := c] == Two(n, c, b) && Two(n, a, b)[1 := c] == Two(n, a, c)
  {}

  /** Before the file is first looked at. */
  function Old(n: nat): State
    requires n >= 2
  {
    State(Some(1), map[1 := "old"], "", None, Two(n, Idle, Idle))
  }

  /** After the first refresher has read it and a writer has replaced it. */
  function New(n: nat): State
    requires n >= 2
  {
    State(Some(2), map[1 := "old", 2 := "new"], "", None, Two(n, StoreText("old", Some(1)), Idle))
  }

  /** The two interleaved refreshes from `New` on: the second runs up to its store of
      the time, the first stores both of its fields, the second stores its time. */
  ghost function Tearing(): seq<Step> {
    var first, second := Advance(0, true, false), Advance(1, true, false);
    [second] + ([second] + ([second] + ([second] + ([first] + ([first] + [second])))))
  }

  /** The second refresher holds the text it is about to put under the new time. */
  function Stored(n: nat): State
    requires n >= 2
  {
    New(n).(text := "new", refreshers := Two(n, StoreText("old", Some(1)), StoreMtime(Some(2))))
  }

  function Torn(n: nat): State
    requires n >= 2
  {
    New(n).(text := "old", mtime := Some(2), refreshers := Two(n, Idle, Idle))
  }

  lemma TearsFromStored(n: nat)
    requires n >= 2
    ensures var first, second := Advance(0, true, false), Advance(1, true, false);
            var steps := [first] + ([first] + [second]);
            EnabledAlong(Stored(n), steps) && Run(Stored(n), steps) == Torn(n)
  {
    hide Run, EnabledAlong, IsBlank, Two;
    var first, second := Advance(0, true, false), Advance(1, true, false);
    var s5 := New(n).(text := "old", refreshers := Two(n, StoreMtime(Some(1)), StoreMtime(Some(2))));
    var s6 := New(n).(text := "old", mtime := Some(1), refreshers := Two(n, Idle, StoreMtime(Some(2))));
    TwoMoves(n);
    NoSteps(Torn(n));
    assert [second] + [] == [second];
    Chain(s6, second, Torn(n), [], Torn(n));
    Chain(s5, first, s6, [second], Torn(n));
    Chain(Stored(n), first, s5, [first] + [second], Torn(n));
  }

  lemma TearsFromNew(n: nat)
    requires n >= 2
    ensures EnabledAlong(New(n), Tearing()) && Run(New(n), Tearing()) == Torn(n)
  {
    hide Run, EnabledAlong, IsBlank, Two;
    NotBlank();
    TwoMoves(n);
    TearsFromStored(n);
    var first, second := Advance(0, true, false), Advance(1, true, false);
    var new_, held := New(n), StoreText("old", Some(1));
    var s1 := new_.(refreshers := Two(n, held, Compare(2)));
    var s2 := new_.(refreshers := Two(n, held, Read(Some(2))));
    var s3 := new_.(refreshers := Two(n, held, StoreText("new", Some(2))));
    var rest := [first] + ([first] + [second]);
    Chain(s3, second, Stored(n), rest, Torn(n));
    Chain(s2, second, s3, [second] + rest, Torn(n));
    Chain(s1, second, s2, [second] + ([second] + rest), Torn(n));
    Chain(new_, second, s1, [second] + ([second] + ([second] + rest)), Torn(n));
  }

  /** Overlapping refreshes tear: the text and the time sit under separate locks, and
      the stores of one between the two of the other leave an old text under the
      file's present time. */
  lemma OverlappingRefreshesTear(n: nat)
    requires n >= 2
    ensures exists steps ::
              Init(Old(n)) && EnabledAlong(Old(n), steps) && !Current(Run(Old(n), steps))
              && forall r :: 0 <= r < n ==> Run(Old(n), steps).refreshers[r] == Idle
  {
    hide Run, EnabledAlong, IsBlank, Tearing, Two;
    NotBlank();
    TearsFromNew(n);
    var first, old_ := Advance(0, true, false), Old(n);
    var e := Torn(n);
    var s1 := old_.(refreshers := Two(n, Compare(1), Idle));
    var s2 := old_.(refreshers := Two(n, Read(Some(1)), Idle));
    var s3 := old_.(refreshers := Two(n, StoreText("old", Some(1)), Idle));
    TwoMoves(n);
    assert old_.texts[2 := "new"] == New(n).texts;
    var rest := [Write("new", 2)] + Tearing();
    Chain(s3, Write("new", 2), New(n), Tearing(), e);
    Chain(s2, first, s3, rest, e);
    Chain(s1, first, s2, [first] + rest, e);
    Chain(old_, first, s1, [first] + ([first] + rest), e);
    assert !Current(e);
  }

  /** One refresher never overlaps with itself. */
  lemma {:induction false} LoneRefresherIsSerial(s: State, steps: seq<Step>)
    requires EnabledFrom(s, steps) && |s.refreshers| <= 1
    ensures SerialAlong(s, steps)
    decreases |steps|
  {
    if steps != [] {
      LoneRefresherIsSerial(Exec(s, steps[0]), steps[1..]);
    }
  }

  ghost predicate EnabledFrom(s: State, steps: seq<Step>) {
    Fits(s) && EnabledAlong(s, steps)
  }

  /** `n` refreshers free to overlap keep a cached time current in every run exactly
      when there are not two of them. */
  lemma CurrentExactlyForOneRefresher(n: nat)
    ensures (forall s, steps :: Init(s) && |s.refreshers| == n && EnabledFrom(s, steps) ==> Current(Run(s, steps)))
            <==> n <= 1
  {
    if n <= 1 {
      forall s, steps | Init(s) && |s.refreshers| == n && EnabledFrom(s, steps) ensures Current(Run(s, steps)) {
        InitInv(s);
        LoneRefresherIsSerial(s, steps);
        CachedTimeIsCurrent(s, steps);
      }
    } else {
      OverlappingRefreshesTear(n);
      var steps :| Init(Old(n)) && EnabledAlong(Old(n), steps) && !Current(Run(Old(n), steps));
      assert EnabledFrom(Old(n), steps) && |Old(n).refreshers| == n;
    }
  }

  lemma NotBlank()
    ensures !IsBlank("old") && !IsBlank("new")
  {
    assert !IsWhite("old"[0]) && !IsWhite("new"[0]);
  }

  lemma NoSteps(s: State)
    requires Fits(s)
    ensures EnabledAlong(s, []) && Run(s, []) == s
  {}

  lemma Chain(s: State, step: Step, s': State, rest: seq<Step>, e: State)
    requires Fits(s) && Enabled(s, step)
    requires Exec(s, step) == s'
    requires Fits(s') && EnabledAlong(s', rest) && Run(s', rest) == e
    ensures EnabledAlong(s, [step] + rest) && Run(s, [step] + rest) == e
  {
    assert ([step] + rest)[1..] == rest;
  }

  // ---------- one cache for each path ----------

  /** The process-wide map: a hit returns what the path has, a miss binds the path to
      a new cache and nothing else. */
  class SharedCaches {
    var store: map<string, PromptFileCache>

    constructor ()
      ensures store == map[]
    {
      store := map[];
    }

    method Shared(path: string) returns (cache: PromptFileCache)
      modifies this
      ensures path in store && store[path] == cache
      ensures path in old(store) ==> store == old(store)
      ensures path !in old(store) ==>
                store == old(store)[path := cache] && fresh(cache) && cache.text == "" && cache.mtime == None
    {
      if path in store {
        return store[path];
      }
      cache := new PromptFileCache("", None);
      store := store[path := cache];
    }
  }

  /** A call of `shared` looks the path up under the read lock and, on a miss, looks
      again and binds it under the write lock. */
  datatype Caller =
    | Waiting(path: string)
    | Missed(path: string)
    | Served(path: string, cache: nat)

  datatype Pool = Pool(store: map<string, nat>, made: nat, callers: seq<Caller>)

  function Serve(p: Pool, c: nat): Pool
    requires c < |p.callers|
  {
    match p.callers[c]
    case Waiting(path) =>
      p.(callers := p.callers[c := if path in p.store then Served(path, p.store[path]) else Missed(path)])
    case Missed(path) =>
      if path in p.store then p.(callers := p.callers[c := Served(path, p.store[path])])
      else Pool(p.store[path := p.made], p.made + 1, p.callers[c := Served(path, p.made)])
    case Served(_, _) => p
  }

  ghost predicate PoolInv(p: Pool) {
    (forall path :: path in p.store ==> p.store[path] < p.made)
    && (forall a, b :: a in p.store && b in p.store && p.store[a] == p.store[b] ==> a == b)
    && forall c :: 0 <= c < |p.callers| && p.callers[c].Served? ==>
         p.callers[c].path in p.store && p.callers[c].cache == p.store[p.callers[c].path]
  }

  /** Runs the callers in the order of `turns`, one locked section at a turn. */
  ghost function Turns(p: Pool, turns: seq<nat>): (p': Pool)
    decreases |turns|
  {
    if turns == [] then p
    else Turns(if turns[0] < |p.callers| then Serve(p, turns[0]) else p, turns[1..])
  }

  lemma ServeKeepsPool(p: Pool, c: nat)
    requires PoolInv(p) && c < |p.callers|
    ensures PoolInv(Serve(p, c)) && |Serve(p, c).callers| == |p.callers|
    ensures forall path :: path in p.store ==>
              path in Serve(p, c).store && Serve(p, c).store[path] == p.store[path]
  {}

  /** Under every interleaving a binding once made stays, and two served callers hold
      the same cache exactly when they asked for the same path. */
  lemma {:induction false} OneCachePerPath(p: Pool, turns: seq<nat>)
    requires PoolInv(p)
    ensures PoolInv(Turns(p, turns))
    ensures forall path :: path in p.store ==>
              path in Turns(p, turns).store && Turns(p, turns).store[path] == p.store[path]
    ensures var cs := Turns(p, turns).callers;
            forall a, b :: 0 <= a < |cs| && 0 <= b < |cs| && cs[a].Served? && cs[b].Served? ==>
              (cs[a].cache == cs[b].cache <==> cs[a].path == cs[b].path)
    decreases |turns|
  {
    if turns != [] {
      if turns[0] < |p.callers| {
        ServeKeepsPool(p, turns[0]);
        OneCachePerPath(Serve(p, turns[0]), turns[1..]);
      } else {
        OneCachePerPath(p, turns[1..]);
      }
    }
  }
}
