/** Which node a balancer should choose, said without any of its loops. */
module SelectSpec {
  /** One moment of a node list: loads, exclusions, ends of the failure windows. */
  datatype Snapshot = Snapshot(count: seq<nat>, cooled: seq<bool>, until: seq<int>)

  ghost predicate Fits(s: Snapshot) {
    |s.count| == |s.cooled| == |s.until| >= 1
  }

  ghost predicate IsFree(s: Snapshot, i: nat)
    requires Fits(s) && i < |s.count|
  {
    !s.cooled[i] && s.count[i] == 0
  }

  ghost predicate NobodyFree(s: Snapshot)
    requires Fits(s)
  {
    forall i :: 0 <= i < |s.count| ==> !IsFree(s, i)
  }

  ghost predicate IsFirstFree(s: Snapshot, b: nat)
    requires Fits(s)
  {
    b < |s.count| && IsFree(s, b) && forall i :: 0 <= i < b ==> !IsFree(s, i)
  }

  /** Least loaded of the nodes that are not cooled, lowest index first. */
  ghost predicate IsLeastLoaded(s: Snapshot, b: nat)
    requires Fits(s)
  {
    b < |s.count| && !s.cooled[b]
    && (forall i :: 0 <= i < |s.count| && !s.cooled[i] ==> s.count[b] <= s.count[i])
    && (forall i :: 0 <= i < b && !s.cooled[i] ==> s.count[b] < s.count[i])
  }

  /** First of the nodes whose failure window ends earliest. */
  ghost predicate IsSoonest(until: seq<int>, b: nat) {
    b < |until|
    && (forall i :: 0 <= i < |until| ==> until[b] <= until[i])
    && (forall i :: 0 <= i < b ==> until[b] < until[i])
  }

  /** priority_free's promise: the lowest free node; if none, the least loaded one
      that is not cooled; if all are cooled, the soonest to recover. */
  ghost predicate IsPriorityFree(s: Snapshot, b: nat)
    requires Fits(s)
  {
    if exists i :: 0 <= i < |s.count| && IsFree(s, i) then IsFirstFree(s, b)
    else if exists i :: 0 <= i < |s.count| && !s.cooled[i] then IsLeastLoaded(s, b)
    else IsSoonest(s.until, b)
  }

  lemma FirstFreeIsChosen(s: Snapshot, b: nat)
    requires Fits(s) && IsFirstFree(s, b)
    ensures b < |s.count| && s.count[b] == 0 && IsPriorityFree(s, b)
  {
    assert IsFree(s, b);
  }

  lemma LeastLoadedIsChosen(s: Snapshot, b: nat)
    requires Fits(s) && IsLeastLoaded(s, b) && NobodyFree(s)
    ensures b < |s.count| && IsPriorityFree(s, b)
  {}

  lemma SoonestIsChosen(s: Snapshot, b: nat)
    requires Fits(s) && IsSoonest(s.until, b) && forall i :: 0 <= i < |s.count| ==> s.cooled[i]
    ensures IsPriorityFree(s, b)
  {}

  /** The promise leaves no choice. */
  lemma PriorityFreeIsUnique(s: Snapshot, a: nat, b: nat)
    requires Fits(s) && IsPriorityFree(s, a) && IsPriorityFree(s, b)
    ensures a == b
  {
    if a < b {
      NotBoth(s, a, b);
    } else if b < a {
      NotBoth(s, b, a);
    }
  }

  lemma NotBoth(s: Snapshot, a: nat, b: nat)
    requires Fits(s) && a < b && IsPriorityFree(s, a)
    ensures !IsPriorityFree(s, b)
  {
    if exists i :: 0 <= i < |s.count| && IsFree(s, i) {
      assert IsFree(s, a);
    } else if exists i :: 0 <= i < |s.count| && !s.cooled[i] {
      assert !s.cooled[a];
    } else if b < |s.until| {
      assert s.until[a] <= s.until[b];
    }
  }
}
