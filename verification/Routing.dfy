/** Backend groups: which configurations are accepted
    (llama-proxy/src/config/loader.rs:86-145) and which group serves a model
    (llama-proxy/src/backends/grouped.rs:47-136). A config map has no order of its
    own, so every answer must be the same for every order it is read in. */
module Routing {
  import opened Options

  /** `cooldownOk` and `nodesOk` stand for the numeric and URL checks of a group. */
  datatype Group = Group(
    mappings: seq<string>, strategy: string, exclusive: bool, nodeCount: nat, cooldownOk: bool, nodesOk: bool)

  type Config = map<string, Group>

  // ---------- what is accepted ----------

  predicate NoDuplicates(xs: seq<string>) {
    forall i, j :: 0 <= i < j < |xs| ==> xs[i] != xs[j]
  }

  ghost predicate Disjoint(xs: seq<string>, ys: seq<string>) {
    forall m :: m in xs ==> m !in ys
  }

  predicate IsCatchAll(g: Group) {
    g.mappings == []
  }

  predicate GroupOk(name: string, g: Group) {
    name != "" && "" !in g.mappings && NoDuplicates(g.mappings) && g.nodeCount > 0
    && (g.strategy == "round_robin" || g.strategy == "priority_free") && g.cooldownOk && g.nodesOk
  }

  /** Two different groups may share a config. */
  ghost predicate Compatible(g: Group, h: Group) {
    Disjoint(g.mappings, h.mappings) && !(IsCatchAll(g) && IsCatchAll(h))
  }

  /** Every group is well-formed, no model is mapped twice, at most one group
      catches all. Nothing here depends on an order of the map. */
  ghost predicate Accepted(c: Config) {
    c != map[]
    && (forall a :: a in c ==> GroupOk(a, c[a]))
    && (forall a, b :: a in c && b in c && a != b ==> Compatible(c[a], c[b]))
  }

  /** Some order of the map's entries: what iterating the HashMap yields. */
  ghost predicate IsEnumeration(es: seq<string>, c: Config) {
    NoDuplicates(es)
    && (forall k :: 0 <= k < |es| ==> es[k] in c)
    && (forall a :: a in c ==> a in es)
  }

  predicate IsMapping(c: Config, a: string, i: nat) {
    a in c && i < |c[a].mappings|
  }

  /** Said of single mappings: no two places of the config hold the same model. */
  ghost predicate MappedOnce(c: Config) {
    forall a, b, i: nat, j: nat :: IsMapping(c, a, i) && IsMapping(c, b, j)
      ==> c[a].mappings[i] == c[b].mappings[j] ==> a == b && i == j
  }

  lemma DifferFrom(xs: seq<string>, ys: seq<string>, i: nat, j: nat)
    requires Disjoint(xs, ys) && i < |xs| && j < |ys|
    ensures xs[i] != ys[j]
  {
    assert xs[i] in xs && ys[j] in ys;
  }

  lemma PairIsCompatible(c: Config, a: string, b: string)
    requires Accepted(c) && a in c && b in c && a != b
    ensures Compatible(c[a], c[b])
  {}

  /** What a config must be to be accepted, rule by rule. */
  lemma AcceptedIff(c: Config)
    ensures Accepted(c) <==>
            c != map[] && MappedOnce(c)
            && (forall a, b :: a in c && b in c && c[a].mappings == [] && c[b].mappings == [] ==> a == b)
            && forall a :: a in c ==>
                 a != "" && "" !in c[a].mappings && c[a].nodeCount > 0
                 && (c[a].strategy == "round_robin" || c[a].strategy == "priority_free")
                 && c[a].cooldownOk && c[a].nodesOk
  {
    if Accepted(c) {
      forall a, b, i: nat, j: nat | IsMapping(c, a, i) && IsMapping(c, b, j)
        ensures c[a].mappings[i] == c[b].mappings[j] ==> a == b && i == j
      {
        if a != b {
          PairIsCompatible(c, a, b);
          DifferFrom(c[a].mappings, c[b].mappings, i, j);
        } else {
          assert GroupOk(a, c[a]);
        }
      }
      forall a, b | a in c && b in c && c[a].mappings == [] && c[b].mappings == [] ensures a == b {
        if a != b {
          PairIsCompatible(c, a, b);
        }
      }
      assert forall a :: a in c ==> GroupOk(a, c[a]);
    }
    if MappedOnce(c) {
      forall a, b | a in c && b in c && a != b ensures Disjoint(c[a].mappings, c[b].mappings) {
        forall m | m in c[a].mappings ensures m !in c[b].mappings {
          var i: nat :| i < |c[a].mappings| && c[a].mappings[i] == m;
          assert IsMapping(c, a, i);
          assert forall j: nat :: j < |c[b].mappings| ==> IsMapping(c, b, j);
        }
      }
      forall a | a in c ensures NoDuplicates(c[a].mappings) {
        assert forall j: nat :: j < |c[a].mappings| ==> IsMapping(c, a, j);
      }
    }
  }

  // ---------- the validator ----------

  /** The first `k` groups of the enumeration break no rule. */
  ghost predicate AcceptedUpTo(c: Config, es: seq<string>, k: nat)
    requires IsEnumeration(es, c) && k <= |es|
  {
    (forall j :: 0 <= j < k ==> GroupOk(es[j], c[es[j]]))
    && (forall i, j :: 0 <= i < j < k ==> Compatible(c[es[j]], c[es[i]]))
  }

  lemma UpToAllIsAccepted(c: Config, es: seq<string>)
    requires IsEnumeration(es, c) && es != []
    ensures AcceptedUpTo(c, es, |es|) <==> Accepted(c)
  {
    hide GroupOk;
    assert es[0] in c;
    if AcceptedUpTo(c, es, |es|) {
      forall a | a in c
        ensures GroupOk(a, c[a])
      {
        var j :| 0 <= j < |es| && es[j] == a;
      }
      forall a, b | a in c && b in c && a != b
        ensures Compatible(c[a], c[b])
      {
        var i :| 0 <= i < |es| && es[i] == a;
        var j :| 0 <= j < |es| && es[j] == b;
        if i < j {
          assert Compatible(c[es[j]], c[es[i]]);
        }
      }
    }
  }

  lemma FailureIsRejection(c: Config, es: seq<string>, k: nat)
    requires IsEnumeration(es, c) && k < |es| && !AcceptedUpTo(c, es, k + 1)
    ensures !Accepted(c)
  {
    hide GroupOk, Compatible;
    if Accepted(c) {
      UpToAllIsAccepted(c, es);
    }
  }

  /** The models already owned are those of the groups seen. */
  ghost predicate OwnsSeen(owner: map<string, string>, c: Config, es: seq<string>, k: nat)
    requires IsEnumeration(es, c) && k <= |es|
  {
    forall m :: m in owner <==> exists j :: 0 <= j < k && m in c[es[j]].mappings
  }

  /** The mapping loop of one group. */
  method ClaimModels(owner: map<string, string>, name: string, mappings: seq<string>)
    returns (ok: bool, owner': map<string, string>)
    ensures ok <==> "" !in mappings && NoDuplicates(mappings) && forall m :: m in mappings ==> m !in owner
    ensures ok ==> forall m :: m in owner' <==> m in owner || m in mappings
    ensures ok ==> forall m :: m in owner' ==> owner'[m] == if m in mappings then name else owner[m]
  {
    owner' := owner;
    var i := 0;
    while i < |mappings|
      invariant 0 <= i <= |mappings|
      invariant "" !in mappings[..i] && NoDuplicates(mappings[..i])
      invariant forall m :: m in mappings[..i] ==> m !in owner
      invariant forall m :: m in owner' <==> m in owner || m in mappings[..i]
      invariant forall m :: m in owner' ==> owner'[m] == if m in mappings[..i] then name else owner[m]
    {
      var model := mappings[i];
      assert model in mappings;
      if model == "" {
        return false, owner;
      }
      if model in owner' {
        if model !in owner {
          var j :| 0 <= j < i && mappings[..i][j] == model;
          assert mappings[j] == mappings[i];
        }
        return false, owner;
      }
      owner' := owner'[model := name];
      assert mappings[..i + 1] == mappings[..i] + [model];
      i := i + 1;
    }
    assert mappings[..i] == mappings;
    return true, owner';
  }

  /** Whether the next group fits the ones before it, as the loop's own state sees it. */
  lemma NextIsCompatible(owner: map<string, string>, c: Config, es: seq<string>, k: nat)
    requires IsEnumeration(es, c) && k < |es| && AcceptedUpTo(c, es, k) && OwnsSeen(owner, c, es, k)
    ensures AcceptedUpTo(c, es, k + 1)
       <==> GroupOk(es[k], c[es[k]]) && (forall m :: m in c[es[k]].mappings ==> m !in owner)
            && !(IsCatchAll(c[es[k]]) && exists j :: 0 <= j < k && IsCatchAll(c[es[j]]))
  {
    hide GroupOk;
    var g := c[es[k]];
    assert (forall m :: m in g.mappings ==> m !in owner)
      <==> forall i :: 0 <= i < k ==> Disjoint(g.mappings, c[es[i]].mappings);
  }

  lemma OwnsNext(owner: map<string, string>, owner': map<string, string>, c: Config, es: seq<string>, k: nat)
    requires IsEnumeration(es, c) && k < |es| && OwnsSeen(owner, c, es, k)
    requires forall m :: m in owner' <==> m in owner || m in c[es[k]].mappings
    ensures OwnsSeen(owner', c, es, k + 1)
  {
    forall m
      ensures m in owner' <==> exists j :: 0 <= j < k + 1 && m in c[es[j]].mappings
    {
      if m in owner {
        var j :| 0 <= j < k && m in c[es[j]].mappings;
      }
    }
  }

  method ValidateBackends(c: Config, es: seq<string>) returns (ok: bool)
    requires IsEnumeration(es, c)
    ensures ok <==> Accepted(c)
  {
    if es == [] {
      return false;
    }
    UpToAllIsAccepted(c, es);
    var catchAlls := 0;
    var owner: map<string, string> := map[];
    var k := 0;
    while k < |es|
      invariant 0 <= k <= |es| && 0 <= catchAlls <= 1
      invariant catchAlls == 1 <==> exists j :: 0 <= j < k && IsCatchAll(c[es[j]])
      invariant OwnsSeen(owner, c, es, k)
      invariant AcceptedUpTo(c, es, k)
    {
      hide Accepted, OwnsSeen;
      var name := es[k];
      var group := c[name];
      if !AcceptedUpTo(c, es, k + 1) {
        FailureIsRejection(c, es, k);
      }
      if name == "" {
        return false;
      }
      if group.mappings == [] {
        catchAlls := catchAlls + 1;
        if catchAlls > 1 {
          return false;
        }
      }
      var claimed, owner' := ClaimModels(owner, name, group.mappings);
      NextIsCompatible(owner, c, es, k);
      if !claimed {
        return false;
      }
      OwnsNext(owner, owner', c, es, k);
      owner := owner';
      if group.nodeCount == 0 {
        return false;
      }
      if group.strategy != "round_robin" && group.strategy != "priority_free" {
        return false;
      }
      if !group.cooldownOk || !group.nodesOk {
        return false;
      }
      k := k + 1;
    }
    return true;
  }

  // ---------- the order of names ----------

  /** Lexicographic order, as `String` compares. */
  predicate Less(a: string, b: string)
    decreases |a|
  {
    b != "" && (a == "" || a[0] < b[0] || (a[0] == b[0] && Less(a[1..], b[1..])))
  }

  /** Less at the first char that differs, or a proper prefix. */
  lemma {:induction false} LessIsLexicographic(a: string, b: string)
    ensures Less(a, b) <==>
            exists k: nat :: k <= |a| && k < |b| && a[..k] == b[..k] && (k == |a| || a[k] < b[k])
    decreases |a|
  {
    if Less(a, b) {
      if a != "" && a[0] == b[0] {
        LessIsLexicographic(a[1..], b[1..]);
        var k: nat :| k <= |a[1..]| && k < |b[1..]| && a[1..][..k] == b[1..][..k] && (k == |a[1..]| || a[1..][k] < b[1..][k]);
        assert a[..k + 1] == [a[0]] + a[1..][..k] && b[..k + 1] == [b[0]] + b[1..][..k];
      } else {
        assert a[..0] == b[..0];
      }
    }
    if k: nat :| k <= |a| && k < |b| && a[..k] == b[..k] && (k == |a| || a[k] < b[k]) {
      if k > 0 {
        assert a[0] == a[..k][0] == b[..k][0] == b[0];
        assert a[1..][..k - 1] == a[..k][1..] && b[1..][..k - 1] == b[..k][1..];
        assert k - 1 < |b[1..]| && (k - 1 == |a[1..]| || a[1..][k - 1] < b[1..][k - 1]);
        LessIsLexicographic(a[1..], b[1..]);
      }
    }
  }

  lemma {:induction false} LessIsTotal(a: string, b: string)
    ensures a == b || Less(a, b) || Less(b, a)
    ensures !(Less(a, b) && Less(b, a)) && !Less(a, a)
    decreases |a|
  {
    if a != "" && b != "" {
      LessIsTotal(a[1..], b[1..]);
      assert a == [a[0]] + a[1..] && b == [b[0]] + b[1..];
    }
    if a != "" {
      LessIsTotal(a[1..], a[1..]);
    }
  }

  lemma {:induction false} LessIsTransitive(a: string, b: string, c: string)
    requires Less(a, b) && Less(b, c)
    ensures Less(a, c)
    decreases |a|
  {
    if a != "" && a[0] == b[0] == c[0] {
      LessIsTransitive(a[1..], b[1..], c[1..]);
    }
  }

  ghost predicate IsSorted(ns: seq<string>) {
    forall i, j :: 0 <= i < j < |ns| ==> Less(ns[i], ns[j])
  }

  /** Sorting the entries by name leaves one possible order, whatever order the map
      was read in. */
  lemma {:induction false} SortedIsUnique(c: Config, xs: seq<string>, ys: seq<string>)
    requires IsEnumeration(xs, c) && IsEnumeration(ys, c) && IsSorted(xs) && IsSorted(ys)
    ensures xs == ys
    decreases |xs|
  {
    hide IsEnumeration, IsSorted, Less;
    EnumerationIsEmpty(c, xs);
    EnumerationIsEmpty(c, ys);
    if xs != [] {
      FirstIsSmallest(c, xs, ys[0]);
      FirstIsSmallest(c, ys, xs[0]);
      LessIsTotal(xs[0], ys[0]);
      EnumerationTail(c, xs);
      EnumerationTail(c, ys);
      SortedTail(xs);
      SortedTail(ys);
      SortedIsUnique(c - {xs[0]}, xs[1..], ys[1..]);
      assert xs == [xs[0]] + xs[1..] && ys == [ys[0]] + ys[1..];
    }
  }

  lemma SortedTail(ns: seq<string>)
    requires IsSorted(ns) && ns != []
    ensures IsSorted(ns[1..])
  {}

  lemma EnumerationIsEmpty(c: Config, xs: seq<string>)
    requires IsEnumeration(xs, c)
    ensures xs == [] <==> c == map[]
    ensures xs != [] ==> xs[0] in c
  {
    if xs == [] {
      assert forall a :: a in c ==> a in xs;
    } else {
      assert xs[0] in c;
    }
  }

  lemma FirstIsSmallest(c: Config, xs: seq<string>, a: string)
    requires IsEnumeration(xs, c) && IsSorted(xs) && xs != [] && a in c
    ensures a == xs[0] || Less(xs[0], a)
  {
    var j :| 0 <= j < |xs| && xs[j] == a;
  }

  lemma EnumerationTail(c: Config, xs: seq<string>)
    requires IsEnumeration(xs, c) && xs != []
    ensures IsEnumeration(xs[1..], c - {xs[0]})
  {
    forall a | a in c - {xs[0]}
      ensures a in xs[1..]
    {
      var k :| 0 <= k < |xs| && xs[k] == a;
      assert xs[1..][k - 1] == a;
    }
  }

  function Insert(ns: seq<string>, a: string): (r: seq<string>)
    ensures forall x :: x in r <==> x == a || x in ns
  {
    if ns == [] then [a] else if Less(a, ns[0]) then [a] + ns else [ns[0]] + Insert(ns[1..], a)
  }

  lemma {:induction false} InsertKeepsSorted(ns: seq<string>, a: string)
    requires IsSorted(ns) && a !in ns
    ensures IsSorted(Insert(ns, a))
    decreases |ns|
  {
    hide Less, IsSorted;
    if ns == [] {
      SortedCons(a, []);
    } else {
      LessIsTotal(a, ns[0]);
      SortedTail(ns);
      HeadIsLeast(ns);
      if Less(a, ns[0]) {
        forall x | x in ns ensures Less(a, x) {
          if x != ns[0] {
            LessIsTransitive(a, ns[0], x);
          }
        }
        SortedCons(a, ns);
      } else {
        InsertKeepsSorted(ns[1..], a);
        SortedCons(ns[0], Insert(ns[1..], a));
      }
    }
  }

  lemma HeadIsLeast(ns: seq<string>)
    requires IsSorted(ns) && ns != []
    ensures forall x :: x in ns ==> x == ns[0] || (x in ns[1..] && Less(ns[0], x))
    ensures forall x :: x in ns[1..] ==> Less(ns[0], x)
  {
    hide Less;
    assert forall k :: 1 <= k < |ns| ==> ns[k] == ns[1..][k - 1];
  }

  lemma SortedCons(a: string, ns: seq<string>)
    requires IsSorted(ns) || ns == []
    requires forall x :: x in ns ==> Less(a, x)
    ensures IsSorted([a] + ns) && [a] + [] == [a]
  {
    hide Less;
    forall j | 0 <= j < |ns| ensures Less(a, ns[j]) {
      assert ns[j] in ns;
    }
  }

  lemma SortedHasNoDuplicates(ns: seq<string>)
    requires IsSorted(ns)
    ensures NoDuplicates(ns)
  {
    forall i, j | 0 <= i < j < |ns| ensures ns[i] != ns[j] {
      LessIsTotal(ns[i], ns[j]);
    }
  }

  /** Every map of groups has an order by name; with SortedIsUnique, just one. */
  lemma {:induction false} SortedExists(c: Config) returns (ns: seq<string>)
    ensures IsEnumeration(ns, c) && IsSorted(ns)
    decreases |c|
  {
    hide Insert, IsSorted, IsEnumeration;
    if c == map[] {
      ns := [];
      NothingIsSorted(c);
    } else {
      var a :| a in c;
      var rest := SortedExists(c - {a});
      ns := Insert(rest, a);
      InsertEnumerates(rest, a, c);
    }
  }

  lemma NothingIsSorted(c: Config)
    requires c == map[]
    ensures IsEnumeration([], c) && IsSorted([])
  {}

  lemma InsertEnumerates(ns: seq<string>, a: string, c: Config)
    requires a in c && IsEnumeration(ns, c - {a}) && IsSorted(ns)
    ensures IsEnumeration(Insert(ns, a), c) && IsSorted(Insert(ns, a))
  {
    hide Insert, IsSorted;
    InsertKeepsSorted(ns, a);
    SortedHasNoDuplicates(Insert(ns, a));
    forall x ensures x in Insert(ns, a) <==> x in c {
      assert x in c - {a} <==> x in c && x != a;
      assert x in ns <==> x in c - {a};
    }
    assert forall k :: 0 <= k < |Insert(ns, a)| ==> Insert(ns, a)[k] in Insert(ns, a);
  }

  // ---------- routing ----------

  /** The three ways a group can get a request, tried in this order. */
  datatype Rung = Mapping(model: string) | CatchAll | Open

  predicate OnRung(c: Config, rung: Rung, a: string) {
    a in c
    && match rung
       case Mapping(model) => model in c[a].mappings
       case CatchAll => IsCatchAll(c[a])
       case Open => !c[a].exclusive
  }

  ghost predicate IsFirst(c: Config, rung: Rung, a: string) {
    OnRung(c, rung, a) && forall b :: OnRung(c, rung, b) && b != a ==> Less(a, b)
  }

  ghost predicate IsEmpty(c: Config, rung: Rung) {
    forall a :: !OnRung(c, rung, a)
  }

  /** The first group by name that maps the model; else the first that catches all;
      else the first that did not opt out of unmatched traffic; and no group exactly
      when there is none of these. */
  ghost predicate Routes(c: Config, model: Option<string>, r: Option<string>) {
    if model.Some? && !IsEmpty(c, Mapping(model.value)) then r.Some? && IsFirst(c, Mapping(model.value), r.value)
    else if !IsEmpty(c, CatchAll) then r.Some? && IsFirst(c, CatchAll, r.value)
    else if !IsEmpty(c, Open) then r.Some? && IsFirst(c, Open, r.value)
    else r.None?
  }

  /** The route, said of the groups' own fields. */
  lemma RouteIs(c: Config, model: Option<string>, r: Option<string>)
    requires Routes(c, model, r)
    ensures (exists a :: a in c && model.Some? && model.value in c[a].mappings) ==>
              r.Some? && r.value in c && model.value in c[r.value].mappings
              && forall b :: b in c && model.value in c[b].mappings && b != r.value ==> Less(r.value, b)
    ensures (forall a :: a in c ==> model.None? || model.value !in c[a].mappings) ==>
              ((exists a :: a in c && c[a].mappings == []) ==>
                 r.Some? && r.value in c && c[r.value].mappings == []
                 && forall b :: b in c && c[b].mappings == [] && b != r.value ==> Less(r.value, b))
              && ((forall a :: a in c ==> c[a].mappings != []) ==>
                    ((exists a :: a in c && !c[a].exclusive) ==>
                       r.Some? && r.value in c && !c[r.value].exclusive
                       && forall b :: b in c && !c[b].exclusive && b != r.value ==> Less(r.value, b))
                    && ((forall a :: a in c ==> c[a].exclusive) ==> r == None))
  {
    hide Less;
    if model.Some? {
      assert forall a :: a in c && model.value in c[a].mappings ==> OnRung(c, Mapping(model.value), a);
      assert forall a :: OnRung(c, Mapping(model.value), a) ==> a in c && model.value in c[a].mappings;
    }
    assert forall a :: OnRung(c, CatchAll, a) <==> a in c && c[a].mappings == [];
    assert forall a :: OnRung(c, Open, a) <==> a in c && !c[a].exclusive;
  }

  lemma FirstIsUnique(c: Config, rung: Rung, a: string, b: string)
    requires IsFirst(c, rung, a) && IsFirst(c, rung, b)
    ensures a == b
  {
    LessIsTotal(a, b);
  }

  /** Any config, accepted or not, leaves the router no choice. */
  lemma RouteIsUnique(c: Config, model: Option<string>, r: Option<string>, r': Option<string>)
    requires Routes(c, model, r) && Routes(c, model, r')
    ensures r == r'
  {
    hide IsFirst, IsEmpty;
    if r.Some? && r'.Some? {
      var rung := if model.Some? && !IsEmpty(c, Mapping(model.value)) then Mapping(model.value)
                  else if !IsEmpty(c, CatchAll) then CatchAll
                  else Open;
      FirstIsUnique(c, rung, r.value, r'.value);
    }
  }

  /** In an accepted config first by name means only: one group owns a model, and one
      catches all. */
  lemma OwnerIsUnique(c: Config, rung: Rung, a: string, b: string)
    requires Accepted(c) && !rung.Open? && OnRung(c, rung, a) && OnRung(c, rung, b)
    ensures a == b
  {
    hide GroupOk;
    if a != b {
      ghost var both := Compatible(c[a], c[b]);
    }
  }

  lemma FirstFound(c: Config, groups: seq<string>, rung: Rung, k: nat)
    requires IsEnumeration(groups, c) && IsSorted(groups) && k < |groups| && OnRung(c, rung, groups[k])
    requires forall j :: 0 <= j < k ==> !OnRung(c, rung, groups[j])
    ensures IsFirst(c, rung, groups[k]) && !IsEmpty(c, rung)
  {
    hide Less;
    forall b | OnRung(c, rung, b) && b != groups[k] ensures Less(groups[k], b) {
      var j :| 0 <= j < |groups| && groups[j] == b;
    }
  }

  lemma NoneFound(c: Config, groups: seq<string>, rung: Rung)
    requires IsEnumeration(groups, c) && forall j :: 0 <= j < |groups| ==> !OnRung(c, rung, groups[j])
    ensures IsEmpty(c, rung)
  {
    forall a ensures !OnRung(c, rung, a) {
      if a in c {
        var j :| 0 <= j < |groups| && groups[j] == a;
      }
    }
  }

  /** `find_group` over the groups as stored, sorted by name. */
  method FindGroup(c: Config, groups: seq<string>, model: Option<string>) returns (r: Option<string>)
    requires IsEnumeration(groups, c) && IsSorted(groups)
    ensures Routes(c, model, r)
  {
    hide IsSorted, IsFirst, IsEmpty;
    if model.Some? {
      var k := 0;
      while k < |groups|
        invariant 0 <= k <= |groups|
        invariant forall j :: 0 <= j < k ==> !OnRung(c, Mapping(model.value), groups[j])
      {
        if c[groups[k]].mappings != [] && model.value in c[groups[k]].mappings {
          FirstFound(c, groups, Mapping(model.value), k);
          return Some(groups[k]);
        }
        k := k + 1;
      }
      NoneFound(c, groups, Mapping(model.value));
    }
    var k := 0;
    while k < |groups|
      invariant 0 <= k <= |groups|
      invariant forall j :: 0 <= j < k ==> !OnRung(c, CatchAll, groups[j])
    {
      if c[groups[k]].mappings == [] {
        FirstFound(c, groups, CatchAll, k);
        return Some(groups[k]);
      }
      k := k + 1;
    }
    NoneFound(c, groups, CatchAll);
    k := 0;
    while k < |groups|
      invariant 0 <= k <= |groups|
      invariant forall j :: 0 <= j < k ==> !OnRung(c, Open, groups[j])
    {
      if !c[groups[k]].exclusive {
        FirstFound(c, groups, Open, k);
        return Some(groups[k]);
      }
      k := k + 1;
    }
    NoneFound(c, groups, Open);
    return None;
  }

  /** With a catch-all, or one group that is not exclusive, no request is refused. */
  lemma RefusedOnlyWithoutFallback(c: Config, model: Option<string>, r: Option<string>)
    requires Routes(c, model, r)
    ensures r.None? <==>
            (model.Some? ==> IsEmpty(c, Mapping(model.value))) && IsEmpty(c, CatchAll) && IsEmpty(c, Open)
  {}
}
