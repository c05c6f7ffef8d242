/** The context length kept from a model listing
    (llama-proxy/src/backends/preflight.rs:281-310). */
module ModelLength {
  import opened Options
  import opened JsonBytes

  /** `id` where it is a string, `length` where it is an unsigned number. */
  datatype Listed = Listed(id: Option<Bytes>, length: Option<nat>)

  predicate IsScored(e: Listed) {
    e.id.Some? && e.length.Some?
  }

  /** Either name is a prefix of the other. */
  predicate Matches(e: Listed, name: Bytes) {
    IsScored(e) && (name <= e.id.value || e.id.value <= name)
  }

  /** Longer id, then larger length. */
  predicate AtLeast(e: Listed, d: Listed)
    requires IsScored(e) && IsScored(d)
  {
    |e.id.value| > |d.id.value| || (|e.id.value| == |d.id.value| && e.length.value >= d.length.value)
  }

  ghost predicate IsBestMatch(es: seq<Listed>, name: Bytes, e: Listed) {
    e in es && Matches(e, name) && forall d :: d in es && Matches(d, name) ==> AtLeast(e, d)
  }

  ghost predicate IsLargest(es: seq<Listed>, e: Listed) {
    e in es && IsScored(e) && forall d :: d in es && IsScored(d) ==> e.length.value >= d.length.value
  }

  ghost predicate NoneMatches(es: seq<Listed>, name: Option<Bytes>) {
    name.Some? ==> forall d :: d in es ==> !Matches(d, name.value)
  }

  /** The best match's length if the name matches something, else the largest, else
      nothing. */
  ghost predicate IsSelected(es: seq<Listed>, name: Option<Bytes>, r: Option<nat>) {
    if !NoneMatches(es, name) then exists e :: IsBestMatch(es, name.value, e) && r == e.length
    else if exists e :: e in es && IsScored(e) then exists e :: IsLargest(es, e) && r == e.length
    else r == None
  }

  method BestMatch(es: seq<Listed>, name: Bytes) returns (best: Option<Listed>)
    ensures best.None? ==> NoneMatches(es, Some(name))
    ensures best.Some? ==> IsBestMatch(es, name, best.value)
  {
    best := None;
    for i := 0 to |es|
      invariant best.None? ==> forall j :: 0 <= j < i ==> !Matches(es[j], name)
      invariant best.Some? ==> best.value in es && Matches(best.value, name)
      invariant best.Some? ==> forall j :: 0 <= j < i && Matches(es[j], name) ==> AtLeast(best.value, es[j])
    {
      if Matches(es[i], name) && (best.None? || !AtLeast(best.value, es[i])) {
        best := Some(es[i]);
      }
    }
  }

  method SelectMaxModelLen(es: seq<Listed>, name: Option<Bytes>) returns (r: Option<nat>)
    ensures IsSelected(es, name, r)
  {
    if name.Some? {
      var best := BestMatch(es, name.value);
      if best.Some? {
        return best.value.length;
      }
    }
    var most: Option<Listed> := None;
    for i := 0 to |es|
      invariant most.None? ==> forall j :: 0 <= j < i ==> !IsScored(es[j])
      invariant most.Some? ==> most.value in es && IsScored(most.value)
      invariant most.Some? ==>
                  forall j :: 0 <= j < i && IsScored(es[j]) ==> most.value.length.value >= es[j].length.value
    {
      if IsScored(es[i]) && (most.None? || es[i].length.value >= most.value.length.value) {
        most := Some(es[i]);
      }
    }
    if most.None? {
      return None;
    }
    assert IsLargest(es, most.value);
    return most.value.length;
  }

  lemma SelectedIsUnique(es: seq<Listed>, name: Option<Bytes>, r: Option<nat>, q: Option<nat>)
    requires IsSelected(es, name, r) && IsSelected(es, name, q)
    ensures r == q
  {
    hide Matches;
    if !NoneMatches(es, name) {
      var d :| IsBestMatch(es, name.value, d) && r == d.length;
      var e :| IsBestMatch(es, name.value, e) && q == e.length;
      BestMatchIsScored(es, name.value, d);
      BestMatchIsScored(es, name.value, e);
      assert AtLeast(d, e) && AtLeast(e, d);
    } else if exists e :: e in es && IsScored(e) {
      var d :| IsLargest(es, d) && r == d.length;
      var e :| IsLargest(es, e) && q == e.length;
    }
  }

  lemma BestMatchIsScored(es: seq<Listed>, name: Bytes, e: Listed)
    requires IsBestMatch(es, name, e)
    ensures IsScored(e)
  {}

  lemma SameEntries(xs: seq<Listed>, ys: seq<Listed>)
    requires multiset(xs) == multiset(ys)
    ensures forall e :: e in xs <==> e in ys
  {
    forall e ensures e in xs <==> e in ys {
      assert e in xs <==> e in multiset(xs);
      assert e in ys <==> e in multiset(ys);
    }
  }

  /** The listing's order does not matter: two listings of the same entries select
      the same length, and only that one. */
  lemma OrderDoesNotMatter(xs: seq<Listed>, ys: seq<Listed>, name: Option<Bytes>, r: Option<nat>, q: Option<nat>)
    requires multiset(xs) == multiset(ys)
    requires IsSelected(xs, name, r) && IsSelected(ys, name, q)
    ensures r == q
  {
    hide Matches, AtLeast, IsScored;
    SameEntries(xs, ys);
    assert NoneMatches(xs, name) == NoneMatches(ys, name);
    if !NoneMatches(xs, name) {
      var e :| IsBestMatch(xs, name.value, e) && r == e.length;
      assert IsBestMatch(ys, name.value, e);
    } else if exists e :: e in xs && IsScored(e) {
      var e :| IsLargest(xs, e) && r == e.length;
      assert IsLargest(ys, e);
    }
    assert IsSelected(ys, name, r);
    SelectedIsUnique(ys, name, r, q);
  }

  /** An entry that names both an id and a length. */
  ghost predicate Names(es: seq<Listed>, k: nat, id: Bytes, length: nat) {
    k < |es| && es[k].id == Some(id) && es[k].length == Some(length)
  }

  /** One of the two starts with the other. */
  ghost predicate Starts(x: Bytes, y: Bytes) {
    (|x| <= |y| && y[..|x|] == x) || (|y| <= |x| && x[..|y|] == y)
  }

  /** What is selected, said of the entries: the length of one with the longest id that
      matches, and among those the largest; without a match the largest of all. */
  lemma SelectedIs(es: seq<Listed>, name: Option<Bytes>, r: Option<nat>)
    requires IsSelected(es, name, r)
    ensures (exists k: nat, id, len: nat :: Names(es, k, id, len) && name.Some? && Starts(id, name.value)) ==>
              exists k: nat, id, len: nat :: Names(es, k, id, len) && Starts(id, name.value) && r == Some(len)
                && forall j: nat, id', len': nat :: Names(es, j, id', len') && Starts(id', name.value) ==>
                     |id'| < |id| || (|id'| == |id| && len' <= len)
    ensures (forall k: nat, id, len: nat :: Names(es, k, id, len) ==> name.None? || !Starts(id, name.value)) ==>
              (r == None <==> forall k: nat, id, len: nat :: !Names(es, k, id, len))
              && (r.Some? ==>
                    (exists k: nat, id :: Names(es, k, id, r.value))
                    && forall k: nat, id, len: nat :: Names(es, k, id, len) ==> len <= r.value)
  {
    if name.Some? {
      forall k: nat | k < |es| ensures Matches(es[k], name.value)
          <==> IsScored(es[k]) && Starts(es[k].id.value, name.value) {}
    }
    forall e | e in es && IsScored(e) ensures exists k: nat :: Names(es, k, e.id.value, e.length.value) {
      var k: nat :| k < |es| && es[k] == e;
      assert Names(es, k, e.id.value, e.length.value);
    }
    forall k: nat, id, len: nat | Names(es, k, id, len) ensures es[k] in es && IsScored(es[k]) {}
    if !NoneMatches(es, name) {
      var e :| IsBestMatch(es, name.value, e) && r == e.length;
      var k: nat :| k < |es| && es[k] == e;
      assert Names(es, k, e.id.value, e.length.value) && Starts(e.id.value, name.value);
      forall j: nat, id, len: nat | Names(es, j, id, len) && Starts(id, name.value)
        ensures |id| < |e.id.value| || (|id| == |e.id.value| && len <= e.length.value)
      {
        assert es[j] in es && Matches(es[j], name.value);
      }
    } else if exists e :: e in es && IsScored(e) {
      var e :| IsLargest(es, e) && r == e.length;
      var k: nat :| k < |es| && es[k] == e;
      assert Names(es, k, e.id.value, e.length.value);
    }
  }
}
