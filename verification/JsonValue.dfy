/** `serde_json::Value` as the request and response code uses it. */
module JsonValue {
  import opened Options

  /** A number is kept as its text. Object equality does not look at member order. */
  datatype Json =
    | Null
    | Bool(b: bool)
    | Num(text: string)
    | Str(s: string)
    | Arr(items: seq<Json>)
    | Obj(members: map<string, Json>)

  /** `Value::get` by key: nothing unless the value is an object holding it. */
  function Get(v: Json, key: string): Option<Json> {
    if v.Obj? && key in v.members then Some(v.members[key]) else None
  }

  predicate IsStr(v: Option<Json>, s: string) {
    v == Some(Str(s))
  }

  function Join(parts: seq<string>): string {
    if parts == [] then ""
    else if |parts| == 1 then parts[0]
    else parts[0] + "\n" + Join(parts[1..])
  }

  /** A content part of type text. */
  predicate IsTextPart(p: Json) {
    IsStr(Get(p, "type"), "text")
  }

  /** The text of a content part, if it contributes one. */
  function PartText(p: Json): seq<string> {
    match Get(p, "text")
    case Some(Str(t)) => if IsTextPart(p) then [t] else []
    case _ => []
  }

  function PartTexts(ps: seq<Json>): seq<string> {
    if ps == [] then [] else PartText(ps[0]) + PartTexts(ps[1..])
  }

  lemma {:induction false} PartTextsConcat(xs: seq<Json>, ys: seq<Json>)
    ensures PartTexts(xs + ys) == PartTexts(xs) + PartTexts(ys)
    decreases |xs|
  {
    hide PartText;
    if xs == [] {
      assert xs + ys == ys;
    } else {
      PartTextsConcat(xs[1..], ys);
      assert (xs + ys)[1..] == xs[1..] + ys;
    }
  }

  // ---------- which texts are read ----------

  ghost predicate IsPartText(p: Json, s: string) {
    Get(p, "type") == Some(Str("text")) && Get(p, "text") == Some(Str(s))
  }

  ghost predicate IsIncreasing(at: seq<nat>, n: nat) {
    (forall k :: 0 <= k < |at| ==> at[k] < n) && forall j, k :: 0 <= j < k < |at| ==> at[j] < at[k]
  }

  /** The texts of parts are those of all text parts that hold a string, in order. */
  lemma {:induction false} PartTextsAre(ps: seq<Json>) returns (at: seq<nat>)
    ensures |at| == |PartTexts(ps)| && IsIncreasing(at, |ps|)
    ensures forall k :: 0 <= k < |at| ==> IsPartText(ps[at[k]], PartTexts(ps)[k])
    ensures forall j: nat, s :: j < |ps| && IsPartText(ps[j], s) ==> j in at
    decreases |ps|
  {
    hide PartTexts, IsPartText;
    if ps == [] {
      at := [];
      assert PartTexts([]) == [] by { NoPartTexts(); }
    } else {
      var n := |ps| - 1;
      var front, p := ps[..n], ps[n];
      at := PartTextsAre(front);
      PartTextsConcat(front, [p]);
      assert ps == front + [p];
      OnePartText(p);
      if PartTexts([p]) != [] {
        assert IsPartText(p, PartTexts([p])[0]);
        at := at + [n];
      }
    }
  }

  lemma NoPartTexts()
    ensures PartTexts([]) == []
  {}

  lemma OnePartText(p: Json)
    ensures PartTexts([p]) == PartText(p) && |PartText(p)| <= 1
    ensures forall s :: IsPartText(p, s) <==> PartText(p) == [s]
  {
    assert [p][1..] == [];
  }

  /** Joining adds a newline before each text but the first. */
  lemma {:induction false} JoinSnoc(parts: seq<string>, last: string)
    ensures Join(parts + [last]) == if parts == [] then last else Join(parts) + "\n" + last
    decreases |parts|
  {
    if |parts| > 1 {
      JoinSnoc(parts[1..], last);
      assert (parts + [last])[1..] == parts[1..] + [last];
      assert parts[0] + "\n" + (Join(parts[1..]) + "\n" + last) == parts[0] + "\n" + Join(parts[1..]) + "\n" + last;
    } else if |parts| == 1 {
      assert (parts + [last])[1..] == [last];
    }
  }

  lemma JoinNothing()
    ensures Join([]) == ""
  {}
}
