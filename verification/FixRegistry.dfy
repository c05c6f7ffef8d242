/** The response fix pipeline and the two ways to honour its configuration
    (llama-proxy/src/fixes/registry.rs, llama-proxy/src/fixes/mod.rs). */
module FixRegistry {
  import opened Options
  import opened JsonValue

  /** A fix module as the registry sees it. `applyWith` has no value when the fix
      fails with an error. */
  datatype Fix = Fix(
    name: string,
    applies: Json -> bool,
    apply: Json -> Json,
    appliesWith: (Json, Json) -> bool,
    applyWith: (Json, Json) -> Option<Json>)

  /** The `fixes` section: the global switch and the `enabled` flag of each entry. */
  datatype Config = Config(enabled: bool, modules: map<string, bool>)

  const SUFFIX := "_fix"

  /** The name without one trailing "_fix". */
  function Base(name: string): (b: string)
    ensures name == b || name == b + SUFFIX
    ensures forall x :: name == x + SUFFIX ==> b == x
  {
    assert forall x :: name == x + SUFFIX ==> |x| == |name| - |SUFFIX| && (x + SUFFIX)[|x|..] == SUFFIX;
    if |name| >= |SUFFIX| && name[|name| - |SUFFIX|..] == SUFFIX then name[..|name| - |SUFFIX|] else name
  }

  /** The entry of a fix: under its base name, else under the suffixed one. */
  function Entry(modules: map<string, bool>, name: string): Option<bool> {
    var base := Base(name);
    if base in modules then Some(modules[base])
    else if base + SUFFIX in modules then Some(modules[base + SUFFIX])
    else None
  }

  /** Whether the configuration leaves the fix on; no entry means on. */
  function Wanted(modules: map<string, bool>, name: string): bool {
    Entry(modules, name) != Some(false)
  }

  ghost function Names(fixes: seq<Fix>): set<string> {
    set f | f in fixes :: f.name
  }

  function IsOn(enabled: map<string, bool>, name: string): bool {
    name in enabled && enabled[name]
  }

  // ---------- what a pipeline does to a response ----------

  function Turn(f: Fix, enabled: map<string, bool>, response: Json, request: Json): Json {
    if IsOn(enabled, f.name) && f.appliesWith(response, request) then
      match f.applyWith(response, request)
      case Some(fixed) => fixed
      case None => response
    else response
  }

  function Pipeline(fixes: seq<Fix>, enabled: map<string, bool>, response: Json, request: Json): Json
    decreases |fixes|
  {
    if fixes == [] then response
    else Pipeline(fixes[1..], enabled, Turn(fixes[0], enabled, response, request), request)
  }

  /** The same fixes run without the request. */
  function Bare(f: Fix): Fix {
    f.(appliesWith := (response, request) => f.applies(response),
       applyWith := (response, request) => Some(f.apply(response)))
  }

  ghost function BareAll(fixes: seq<Fix>): (bare: seq<Fix>)
    ensures |bare| == |fixes| && forall k :: 0 <= k < |fixes| ==> bare[k] == Bare(fixes[k])
  {
    seq(|fixes|, k requires 0 <= k < |fixes| => Bare(fixes[k]))
  }

  class Registry {
    var fixes: seq<Fix>
    var enabled: map<string, bool>

    /** Every registered fix has a flag, and nothing else has one. */
    ghost predicate Valid()
      reads this
    {
      enabled.Keys == Names(fixes)
    }

    constructor ()
      ensures Valid() && fixes == [] && enabled == map[]
    {
      fixes := [];
      enabled := map[];
    }

    method Register(fix: Fix)
      requires Valid()
      modifies this
      ensures Valid() && fixes == old(fixes) + [fix] && enabled == old(enabled)[fix.name := true]
    {
      var name := fix.name;
      fixes := fixes + [fix];
      enabled := enabled[name := true];
      NamesSnoc(old(fixes), fix);
    }

    /** Flags only what is registered. */
    method SetEnabled(name: string, on: bool)
      requires Valid()
      modifies this`enabled
      ensures Valid()
      ensures enabled == if name in Names(fixes) then old(enabled)[name := on] else old(enabled)
    {
      if name in enabled {
        enabled := enabled[name := on];
      }
    }

    predicate IsEnabled(name: string)
      reads this
    {
      IsOn(enabled, name)
    }

    method ApplyFixes(response: Json, anyRequest: Json) returns (result: Json)
      ensures result == Pipeline(BareAll(fixes), enabled, response, anyRequest)
    {
      result := response;
      ghost var bare := BareAll(fixes);
      var i := 0;
      assert bare[0..] == bare;
      while i < |fixes|
        invariant 0 <= i <= |fixes|
        invariant Pipeline(bare, enabled, response, anyRequest) == Pipeline(bare[i..], enabled, result, anyRequest)
      {
        var fix := fixes[i];
        assert bare[i..][0] == Bare(fix) && bare[i..][1..] == bare[i + 1..];
        if IsEnabled(fix.name) && fix.applies(result) {
          result := fix.apply(result);
        }
        i := i + 1;
      }
    }

    method ApplyFixesWithContext(response: Json, request: Json) returns (result: Json)
      ensures result == Pipeline(fixes, enabled, response, request)
    {
      result := response;
      var i := 0;
      assert fixes[0..] == fixes;
      while i < |fixes|
        invariant 0 <= i <= |fixes|
        invariant Pipeline(fixes, enabled, response, request) == Pipeline(fixes[i..], enabled, result, request)
      {
        var fix := fixes[i];
        assert fixes[i..][0] == fix && fixes[i..][1..] == fixes[i + 1..];
        if IsEnabled(fix.name) && fix.appliesWith(result, request) {
          match fix.applyWith(result, request) {
            case Some(fixed) =>
              result := fixed;
            case None =>
          }
        }
        i := i + 1;
      }
    }

    /** A registered fix with an entry takes its flag from it; every other flag stays. */
    method Configure(modules: map<string, bool>)
      requires Valid()
      modifies this`enabled
      ensures Valid()
      ensures forall n :: n in enabled ==>
                enabled[n] == match Entry(modules, n) case Some(on) => on case None => old(enabled)[n]
    {
      hide Base, Names, Flagged;
      var i := 0;
      ghost var was := enabled;
      NothingFlagged(modules, was);
      while i < |fixes|
        invariant 0 <= i <= |fixes|
        invariant was.Keys == Names(fixes)
        invariant Flagged(fixes[..i], modules, was, enabled)
      {
        var name := fixes[i].name;
        var base := Base(name);
        FlaggedSnoc(fixes, i, modules, was, enabled);
        if base in modules {
          enabled := enabled[name := modules[base]];
        } else if base + SUFFIX in modules {
          enabled := enabled[name := modules[base + SUFFIX]];
        }
        i := i + 1;
      }
      assert fixes[..i] == fixes;
      AllFlagged(fixes, modules, was, enabled);
    }
  }

  /** The flags after `configure` has gone through the fixes in `done`. */
  ghost predicate Flagged(done: seq<Fix>, modules: map<string, bool>, was: map<string, bool>, now: map<string, bool>) {
    now.Keys == was.Keys
    && forall n :: n in now ==>
         now[n] == if n in Names(done) && Entry(modules, n).Some? then Entry(modules, n).value else was[n]
  }

  lemma NothingFlagged(modules: map<string, bool>, was: map<string, bool>)
    ensures Flagged([], modules, was, was)
  {
    assert Names([]) == {};
  }

  lemma FlaggedSnoc(fixes: seq<Fix>, i: nat, modules: map<string, bool>, was: map<string, bool>, now: map<string, bool>)
    requires i < |fixes| && was.Keys == Names(fixes) && Flagged(fixes[..i], modules, was, now)
    ensures Flagged(fixes[..i + 1], modules, was,
                    match Entry(modules, fixes[i].name) case Some(on) => now[fixes[i].name := on] case None => now)
  {
    hide Base, Entry, Names;
    IsNamed(fixes, i);
    NamesSnoc(fixes[..i], fixes[i]);
    assert fixes[..i + 1] == fixes[..i] + [fixes[i]];
  }

  lemma IsNamed(fixes: seq<Fix>, i: nat)
    requires i < |fixes|
    ensures fixes[i].name in Names(fixes)
  {
    assert fixes[i] in fixes;
  }

  lemma AllFlagged(fixes: seq<Fix>, modules: map<string, bool>, was: map<string, bool>, now: map<string, bool>)
    requires was.Keys == Names(fixes) && Flagged(fixes, modules, was, now)
    ensures now.Keys == was.Keys
    ensures forall n :: n in now ==>
              now[n] == match Entry(modules, n) case Some(on) => on case None => was[n]
  {
    hide Entry;
  }

  lemma NamesSnoc(fixes: seq<Fix>, fix: Fix)
    ensures Names(fixes + [fix]) == Names(fixes) + {fix.name}
  {
    var all := fixes + [fix];
    assert fix in all;
    forall n | n in Names(fixes) + {fix.name} ensures n in Names(all) {
      if n != fix.name {
        var f :| f in fixes && f.name == n;
        assert f in all;
      }
    }
  }

  /** `create_default_registry` over the list of known fixes, in their order. */
  method CreateDefaultRegistry(known: seq<Fix>) returns (registry: Registry)
    ensures fresh(registry) && registry.Valid()
    ensures registry.fixes == known && registry.enabled == AllOn(known)
  {
    registry := new Registry();
    var i := 0;
    while i < |known|
      invariant 0 <= i <= |known|
      invariant registry.Valid() && registry.fixes == known[..i]
      invariant forall n :: n in registry.enabled ==> registry.enabled[n]
    {
      assert known[..i + 1] == known[..i] + [known[i]];
      registry.Register(known[i]);
      i := i + 1;
    }
    assert known[..i] == known;
  }

  /** `create_registry_from_config`: a fix the configuration does not want is not
      registered at all. */
  method CreateRegistryFromConfig(known: seq<Fix>, config: Config) returns (registry: Registry)
    ensures fresh(registry) && registry.Valid()
    ensures registry.fixes == Built(known, config)
    ensures registry.enabled == AllOn(registry.fixes)
  {
    hide Base;
    registry := new Registry();
    if !config.enabled {
      return;
    }
    var i := 0;
    while i < |known|
      invariant 0 <= i <= |known|
      invariant registry.Valid() && registry.fixes == Kept(known[..i], config.modules)
      invariant forall n :: n in registry.enabled ==> registry.enabled[n]
    {
      var fix := known[i];
      var base := Base(fix.name);
      var entry := if base in config.modules then Some(config.modules[base])
                   else if base + SUFFIX in config.modules then Some(config.modules[base + SUFFIX])
                   else None;
      KeptSnoc(known[..i], fix, config.modules);
      assert known[..i + 1] == known[..i] + [fix];
      if entry != Some(false) {
        registry.Register(fix);
      }
      i := i + 1;
    }
    assert known[..i] == known;
  }

  ghost function AllOn(fixes: seq<Fix>): map<string, bool> {
    map n | n in Names(fixes) :: true
  }

  /** The known fixes the configuration wants, in order. */
  function Kept(known: seq<Fix>, modules: map<string, bool>): seq<Fix> {
    if known == [] then []
    else (if Wanted(modules, known[0].name) then [known[0]] else []) + Kept(known[1..], modules)
  }

  lemma {:induction false} KeptSnoc(known: seq<Fix>, fix: Fix, modules: map<string, bool>)
    ensures Kept(known + [fix], modules) ==
            Kept(known, modules) + if Wanted(modules, fix.name) then [fix] else []
    decreases |known|
  {
    hide Wanted;
    if known == [] {
      assert [] + [fix] == [fix];
    } else {
      KeptSnoc(known[1..], fix, modules);
      assert (known + [fix])[1..] == known[1..] + [fix];
      Associates(if Wanted(modules, known[0].name) then [known[0]] else [], Kept(known[1..], modules),
                 if Wanted(modules, fix.name) then [fix] else []);
    }
  }

  lemma Associates(xs: seq<Fix>, ys: seq<Fix>, zs: seq<Fix>)
    ensures xs + (ys + zs) == (xs + ys) + zs && [] + zs == zs
  {}

  // ---------- the two ways agree ----------

  /** The flags of the default registry after `configure`. */
  ghost predicate Configured(known: seq<Fix>, modules: map<string, bool>, enabled: map<string, bool>) {
    enabled.Keys == Names(known)
    && forall n :: n in enabled ==>
         enabled[n] == match Entry(modules, n) case Some(on) => on case None => AllOn(known)[n]
  }

  /** The other way to honour the `fixes` section: the default registry, configured. */
  method CreateConfiguredRegistry(known: seq<Fix>, modules: map<string, bool>) returns (registry: Registry)
    ensures fresh(registry) && registry.Valid() && registry.fixes == known
    ensures Configured(known, modules, registry.enabled)
  {
    registry := CreateDefaultRegistry(known);
    registry.Configure(modules);
  }

  lemma {:induction false} KeptNames(known: seq<Fix>, modules: map<string, bool>)
    ensures forall n :: n in Names(Kept(known, modules)) <==> n in Names(known) && Wanted(modules, n)
    decreases |known|
  {
    hide Base, Wanted;
    if known != [] {
      var rest := known[1..];
      KeptNames(rest, modules);
      assert known == [known[0]] + rest;
      NamesCons(known[0], rest);
      NamesCons(known[0], Kept(rest, modules));
    }
  }

  lemma NamesCons(fix: Fix, fixes: seq<Fix>)
    ensures Names([fix] + fixes) == {fix.name} + Names(fixes)
    ensures [] + fixes == fixes
  {
    var all := [fix] + fixes;
    assert all[0] == fix;
    forall n | n in {fix.name} + Names(fixes) ensures n in Names(all) {
      if n != fix.name {
        var f :| f in fixes && f.name == n;
        assert f in all;
      }
    }
  }

  /** A pipeline looks only at the flags of its own fixes. */
  lemma {:induction false} FlagsOfOwnFixes(fixes: seq<Fix>, a: map<string, bool>, b: map<string, bool>,
                                           response: Json, request: Json)
    requires forall f :: f in fixes ==> IsOn(a, f.name) == IsOn(b, f.name)
    ensures Pipeline(fixes, a, response, request) == Pipeline(fixes, b, response, request)
    decreases |fixes|
  {
    hide IsOn;
    if fixes != [] {
      assert fixes[0] in fixes;
      FlagsOfOwnFixes(fixes[1..], a, b, Turn(fixes[0], a, response, request), request);
    }
  }

  /** A fix that is off does as one that is not there. */
  lemma {:induction false} OffIsAbsent(known: seq<Fix>, modules: map<string, bool>, on: map<string, bool>,
                                       response: Json, request: Json)
    requires forall f :: f in known ==> IsOn(on, f.name) == Wanted(modules, f.name)
    ensures Pipeline(known, on, response, request) == Pipeline(Kept(known, modules), on, response, request)
    decreases |known|
  {
    hide IsOn, Wanted;
    if known != [] {
      var f, rest := known[0], known[1..];
      assert f in known;
      OffIsAbsent(rest, modules, on, Turn(f, on, response, request), request);
      if Wanted(modules, f.name) {
        assert ([f] + Kept(rest, modules))[1..] == Kept(rest, modules);
      } else {
        assert [] + Kept(rest, modules) == Kept(rest, modules);
      }
    }
  }

  /** What `create_registry_from_config` registers. */
  function Built(known: seq<Fix>, config: Config): seq<Fix> {
    if config.enabled then Kept(known, config.modules) else []
  }

  lemma KeptAgrees(known: seq<Fix>, modules: map<string, bool>, enabled: map<string, bool>)
    requires Configured(known, modules, enabled)
    ensures forall n :: IsOn(AllOn(Kept(known, modules)), n) == IsOn(enabled, n)
    ensures forall n :: IsOn(enabled, n) <==> n in Names(known) && Wanted(modules, n)
    ensures forall response, request ::
              Pipeline(Kept(known, modules), AllOn(Kept(known, modules)), response, request)
              == Pipeline(known, enabled, response, request)
  {
    hide Base;
    var kept := Kept(known, modules);
    KeptNames(known, modules);
    forall f | f in known ensures IsOn(enabled, f.name) == Wanted(modules, f.name) {
      assert f.name in Names(known);
    }
    forall response, request
      ensures Pipeline(kept, AllOn(kept), response, request) == Pipeline(known, enabled, response, request)
    {
      OffIsAbsent(known, modules, enabled, response, request);
      FlagsOfOwnFixes(kept, AllOn(kept), enabled, response, request);
    }
  }

  /** The same fixes on, and every response turned into the same one. */
  ghost predicate Agree(fixes: seq<Fix>, enabled: map<string, bool>, fixes': seq<Fix>, enabled': map<string, bool>) {
    (forall n :: IsOn(enabled, n) == IsOn(enabled', n))
    && forall response, request :: Pipeline(fixes, enabled, response, request) == Pipeline(fixes', enabled', response, request)
  }

  /** For any fixes under any names: registering only what the configuration wants, and
      registering everything to configure it afterwards, agree exactly when the global
      switch is on or no known fix is wanted anyway. Only the first looks at the
      switch. */
  lemma BothWaysAgreeIff(known: seq<Fix>, config: Config, enabled: map<string, bool>)
    requires Configured(known, config.modules, enabled)
    ensures Agree(Built(known, config), AllOn(Built(known, config)), known, enabled)
       <==> config.enabled || forall f :: f in known ==> !Wanted(config.modules, f.name)
  {
    hide Base, Wanted, IsOn, Configured;
    KeptAgrees(known, config.modules, enabled);
    if !config.enabled {
      assert Built(known, config) == [];
      NothingOn();
      if f :| f in known && Wanted(config.modules, f.name) {
        assert f.name in Names(known);
        assert IsOn(enabled, f.name) && !IsOn(AllOn([]), f.name);
      } else {
        forall n ensures !IsOn(enabled, n) {
          if n in Names(known) {
            var f :| f in known && f.name == n;
          }
        }
        assert Kept(known, config.modules) == [] by {
          NothingKept(known, config.modules);
        }
      }
    }
  }

  lemma NothingOn()
    ensures forall n :: !IsOn(AllOn([]), n)
  {
    assert Names([]) == {};
  }

  lemma {:induction false} NothingKept(known: seq<Fix>, modules: map<string, bool>)
    requires forall f :: f in known ==> !Wanted(modules, f.name)
    ensures Kept(known, modules) == []
    decreases |known|
  {
    hide Wanted;
    if known != [] {
      assert known[0] in known;
      NothingKept(known[1..], modules);
    }
  }

  /** Both spellings of a key address the same fix, the suffix-free one wins, and any
      other key, known or not, changes nothing for it. */
  lemma EitherSpelling(modules: map<string, bool>, name: string, key: string, on: bool)
    ensures key == Base(name) ==> Entry(modules[key := on], name) == Some(on)
    ensures key == Base(name) + SUFFIX && Base(name) !in modules ==> Entry(modules[key := on], name) == Some(on)
    ensures key == Base(name) + SUFFIX && Base(name) in modules ==> Entry(modules[key := on], name) == Entry(modules, name)
    ensures Base(key) != Base(name) && key != Base(name) ==> Entry(modules[key := on], name) == Entry(modules, name)
  {
    assert Base(Base(name) + SUFFIX) == Base(name);
    assert |Base(name) + SUFFIX| > |Base(name)|;
  }

  // ---------- what the configuration leaves on ----------

  /** Without an entry under either spelling a fix is built, and all of them are from a
      configuration that has no entries. */
  lemma AbsentMeansEnabled(known: seq<Fix>, modules: map<string, bool>)
    requires forall f :: f in known ==> Base(f.name) !in modules && Base(f.name) + SUFFIX !in modules
    ensures Kept(known, modules) == known
    decreases |known|
  {
    hide Base;
    if known != [] {
      assert known[0] in known;
      assert Entry(modules, known[0].name) == None;
      AbsentMeansEnabled(known[1..], modules);
      assert known == [known[0]] + known[1..];
    }
  }

  /** The three fixes of the program, by name, and the keys that switch them. */
  lemma KnownKeys(modules: map<string, bool>, on: bool)
    ensures Entry(modules["toolcall_null_index" := on], "toolcall_null_index_fix") == Some(on)
    ensures Entry(map["toolcall_null_index_fix" := on], "toolcall_null_index_fix") == Some(on)
    ensures Entry(modules["toolcall_bad_filepath" := on], "toolcall_bad_filepath") == Some(on)
    ensures Entry(map["toolcall_bad_filepath_fix" := on], "toolcall_bad_filepath") == Some(on)
    ensures Entry(modules["toolcall_malformed_arguments" := on], "toolcall_malformed_arguments") == Some(on)
    ensures Entry(map["toolcall_malformed_arguments_fix" := on], "toolcall_malformed_arguments") == Some(on)
  {
    assert "toolcall_null_index_fix" == "toolcall_null_index" + SUFFIX;
    assert "toolcall_bad_filepath_fix" == "toolcall_bad_filepath" + SUFFIX;
    assert "toolcall_malformed_arguments_fix" == "toolcall_malformed_arguments" + SUFFIX;
    EndsOtherwise("toolcall_bad_filepath");
    EndsOtherwise("toolcall_malformed_arguments");
    assert "toolcall_null_index" != "toolcall_null_index_fix";
    assert |"toolcall_bad_filepath"| < |"toolcall_bad_filepath_fix"|;
    assert |"toolcall_malformed_arguments"| < |"toolcall_malformed_arguments_fix"|;
    assert |"toolcall_null_index"| < |"toolcall_null_index_fix"|;
  }

  lemma EndsOtherwise(name: string)
    requires |name| > 0 && name[|name| - 1] != 'x'
    ensures Base(name) == name
  {}

  // ---------- what a pipeline does, fix by fix ----------

  /** The responses between the fixes: one that is on, applies to what reaches it and
      does not fail hands on what it makes of it; any other hands it on as it came. */
  ghost predicate IsTrace(fixes: seq<Fix>, enabled: map<string, bool>, request: Json, rs: seq<Json>) {
    |rs| == |fixes| + 1
    && forall k :: 0 <= k < |fixes| ==>
         var runs := fixes[k].name in enabled && enabled[fixes[k].name] && fixes[k].appliesWith(rs[k], request);
         match fixes[k].applyWith(rs[k], request)
         case Some(fixed) => rs[k + 1] == if runs then fixed else rs[k]
         case None => rs[k + 1] == rs[k]
  }

  /** The same for fixes run without a request, which cannot fail. */
  ghost predicate IsBareTrace(fixes: seq<Fix>, enabled: map<string, bool>, rs: seq<Json>) {
    |rs| == |fixes| + 1
    && forall k :: 0 <= k < |fixes| ==>
         rs[k + 1] == if fixes[k].name in enabled && enabled[fixes[k].name] && fixes[k].applies(rs[k])
                      then fixes[k].apply(rs[k]) else rs[k]
  }

  /** A pipeline ends where the trace from its response ends. */
  lemma {:induction false} PipelineIsTrace(fixes: seq<Fix>, enabled: map<string, bool>, request: Json, rs: seq<Json>)
    requires IsTrace(fixes, enabled, request, rs)
    ensures Pipeline(fixes, enabled, rs[0], request) == rs[|fixes|]
    decreases |fixes|
  {
    if fixes != [] {
      assert rs[1] == Turn(fixes[0], enabled, rs[0], request);
      assert rs[1..][0] == rs[1];
      PipelineIsTrace(fixes[1..], enabled, request, rs[1..]);
    }
  }

  lemma {:induction false} BarePipelineIsTrace(fixes: seq<Fix>, enabled: map<string, bool>, request: Json, rs: seq<Json>)
    requires IsBareTrace(fixes, enabled, rs)
    ensures Pipeline(BareAll(fixes), enabled, rs[0], request) == rs[|fixes|]
  {
    var bare := BareAll(fixes);
    forall k | 0 <= k < |bare|
      ensures var runs := bare[k].name in enabled && enabled[bare[k].name] && bare[k].appliesWith(rs[k], request);
              bare[k].applyWith(rs[k], request) == Some(fixes[k].apply(rs[k]))
              && rs[k + 1] == if runs then fixes[k].apply(rs[k]) else rs[k]
    {
      assert bare[k] == Bare(fixes[k]);
    }
    PipelineIsTrace(bare, enabled, request, rs);
  }

  /** Every response has a trace, so the two lemmas above speak of every run. */
  lemma {:induction false} TraceExists(fixes: seq<Fix>, enabled: map<string, bool>, response: Json, request: Json)
    returns (rs: seq<Json>)
    ensures IsTrace(fixes, enabled, request, rs) && rs[0] == response
    decreases |fixes|
  {
    if fixes == [] {
      rs := [response];
    } else {
      var rest := TraceExists(fixes[1..], enabled, Turn(fixes[0], enabled, response, request), request);
      rs := [response] + rest;
      assert forall k :: 1 <= k < |fixes| ==> fixes[k] == fixes[1..][k - 1] && rs[k] == rest[k - 1];
    }
  }

  /** Where no fix that is on applies, the response comes out as it went in. */
  lemma {:induction false} NothingAppliesNothingChanges(
    fixes: seq<Fix>, enabled: map<string, bool>, response: Json, request: Json)
    requires forall f :: f in fixes && f.name in enabled && enabled[f.name] ==> !f.appliesWith(response, request)
    ensures Pipeline(fixes, enabled, response, request) == response
    decreases |fixes|
  {
    if fixes != [] {
      assert fixes[0] in fixes;
      NothingAppliesNothingChanges(fixes[1..], enabled, response, request);
    }
  }

  /** A fix that is on, applies to what reaches it and succeeds with `fixed`: the rest
      of the pipeline goes on from there. */
  lemma FixRuns(fixes: seq<Fix>, k: nat, enabled: map<string, bool>, response: Json, request: Json, fixed: Json)
    requires k < |fixes| && fixes[k].name in enabled && enabled[fixes[k].name]
    requires var reached := Pipeline(fixes[..k], enabled, response, request);
             fixes[k].appliesWith(reached, request) && fixes[k].applyWith(reached, request) == Some(fixed)
    ensures Pipeline(fixes, enabled, response, request) == Pipeline(fixes[k + 1..], enabled, fixed, request)
  {
    assert fixes == fixes[..k] + fixes[k..] && fixes[k..][1..] == fixes[k + 1..];
    PipelineConcat(fixes[..k], fixes[k..], enabled, response, request);
  }

  // ---------- a fix that fails ----------

  lemma {:induction false} PipelineConcat(xs: seq<Fix>, ys: seq<Fix>, enabled: map<string, bool>,
                                          response: Json, request: Json)
    ensures Pipeline(xs + ys, enabled, response, request)
         == Pipeline(ys, enabled, Pipeline(xs, enabled, response, request), request)
    decreases |xs|
  {
    if xs == [] {
      assert xs + ys == ys;
    } else {
      assert (xs + ys)[1..] == xs[1..] + ys;
      PipelineConcat(xs[1..], ys, enabled, Turn(xs[0], enabled, response, request), request);
    }
  }

  function Without(fixes: seq<Fix>, k: nat): seq<Fix>
    requires k < |fixes|
  {
    fixes[..k] + fixes[k + 1..]
  }

  ghost function FlagsFor(fixes: seq<Fix>, enabled: map<string, bool>): map<string, bool> {
    map n | n in enabled && n in Names(fixes) :: enabled[n]
  }

  /** A fix whose application fails on what reaches it leaves every response as a
      registry that never registered it would. */
  lemma ErrorIsAbsence(fixes: seq<Fix>, k: nat, enabled: map<string, bool>, response: Json, request: Json)
    requires k < |fixes|
    requires fixes[k].applyWith(Pipeline(fixes[..k], enabled, response, request), request) == None
    ensures Pipeline(fixes, enabled, response, request)
         == Pipeline(Without(fixes, k), FlagsFor(Without(fixes, k), enabled), response, request)
  {
    var rest := Without(fixes, k);
    var reached := Pipeline(fixes[..k], enabled, response, request);
    assert fixes == fixes[..k] + fixes[k..] && fixes[k..][1..] == fixes[k + 1..];
    PipelineConcat(fixes[..k], fixes[k..], enabled, response, request);
    PipelineConcat(fixes[..k], fixes[k + 1..], enabled, response, request);
    forall f | f in rest
      ensures IsOn(enabled, f.name) == IsOn(FlagsFor(rest, enabled), f.name)
    {
      assert f.name in Names(rest);
    }
    FlagsOfOwnFixes(rest, enabled, FlagsFor(rest, enabled), response, request);
  }

  /** Fixes that keep the default context methods never look at the request: running
      them with a request is running them without one. */
  lemma {:induction false} DefaultsIgnoreTheRequest(fixes: seq<Fix>, enabled: map<string, bool>,
                                                    response: Json, request: Json, other: Json)
    requires forall f :: f in fixes ==>
               forall v, q :: f.appliesWith(v, q) == f.applies(v) && f.applyWith(v, q) == Some(f.apply(v))
    ensures Pipeline(fixes, enabled, response, request) == Pipeline(BareAll(fixes), enabled, response, other)
    decreases |fixes|
  {
    if fixes != [] {
      var f := fixes[0];
      assert f in fixes;
      assert BareAll(fixes)[1..] == BareAll(fixes[1..]);
      DefaultsIgnoreTheRequest(fixes[1..], enabled, Turn(f, enabled, response, request), request, other);
    }
  }
}
