/** Injecting an augmentation block into a chat request and reading the user's text
    back out of it (llama-proxy/src/augment.rs:155-195, 197-318). */
module Augment {
  import opened Options
  import opened JsonValue

  // ---------- what the extraction reads ----------

  predicate IsUser(m: Json) {
    IsStr(Get(m, "role"), "user")
  }

  function ContentTexts(content: Option<Json>): seq<string> {
    match content
    case Some(Str(s)) => [s]
    case Some(Arr(ps)) => PartTexts(ps)
    case _ => []
  }

  function MessageTexts(m: Json): seq<string> {
    if IsUser(m) then ContentTexts(Get(m, "content")) else []
  }

  function UserTexts(ms: seq<Json>): seq<string> {
    if ms == [] then [] else MessageTexts(ms[0]) + UserTexts(ms[1..])
  }

  function Messages(req: Json): Option<seq<Json>> {
    match Get(req, "messages")
    case Some(Arr(ms)) => Some(ms)
    case _ => None
  }

  function Texts(req: Json): seq<string> {
    match Messages(req) case None => [] case Some(ms) => UserTexts(ms)
  }

  /** `extract_user_content_from_json`. */
  function Extract(req: Json): string {
    Join(Texts(req))
  }

  method BlockTexts(blocks: seq<Json>) returns (parts: seq<string>)
    ensures parts == PartTexts(blocks)
  {
    hide PartTexts;
    parts := [];
    var j := 0;
    assert blocks[0..] == blocks;
    while j < |blocks|
      invariant 0 <= j <= |blocks|
      invariant PartTexts(blocks) == parts + PartTexts(blocks[j..])
    {
      PartTextsStep(blocks, j);
      Regroup(parts, PartText(blocks[j]), PartTexts(blocks[j + 1..]));
      if IsTextPart(blocks[j]) {
        match Get(blocks[j], "text") {
          case Some(Str(t)) =>
            parts := parts + [t];
          case _ =>
        }
      }
      j := j + 1;
    }
    NoTexts();
    assert blocks[j..] == [];
  }

  method ExtractUserContent(req: Json) returns (r: string)
    ensures r == Extract(req)
  {
    hide UserTexts, PartTexts;
    NoTexts();
    var ms := Messages(req);
    if ms.None? {
      return "";
    }
    var parts: seq<string> := [];
    var i := 0;
    assert ms.value[0..] == ms.value;
    while i < |ms.value|
      invariant 0 <= i <= |ms.value|
      invariant UserTexts(ms.value) == parts + UserTexts(ms.value[i..])
    {
      var msg := ms.value[i];
      UserTextsStep(ms.value, i);
      Regroup(parts, MessageTexts(msg), UserTexts(ms.value[i + 1..]));
      if IsUser(msg) {
        match Get(msg, "content") {
          case Some(Str(s)) =>
            parts := parts + [s];
          case Some(Arr(blocks)) =>
            var texts := BlockTexts(blocks);
            parts := parts + texts;
          case _ =>
        }
      }
      i := i + 1;
    }
    assert ms.value[i..] == [];
    Regroup(parts, [], []);
    r := Join(parts);
  }

  lemma Regroup(xs: seq<string>, ys: seq<string>, zs: seq<string>)
    ensures xs + (ys + zs) == (xs + ys) + zs && xs + [] == xs
  {}

  lemma UserTextsStep(ms: seq<Json>, i: nat)
    requires i < |ms|
    ensures UserTexts(ms[i..]) == MessageTexts(ms[i]) + UserTexts(ms[i + 1..])
  {
    assert ms[i..][1..] == ms[i + 1..];
  }

  lemma PartTextsStep(ps: seq<Json>, j: nat)
    requires j < |ps|
    ensures PartTexts(ps[j..]) == PartText(ps[j]) + PartTexts(ps[j + 1..])
  {
    assert ps[j..][1..] == ps[j + 1..];
  }

  lemma NoTexts()
    ensures UserTexts([]) == [] && PartTexts([]) == []
  {}

  // ---------- the injection ----------

  datatype Error = NotAnObject | NoMessages | UnsupportedContent

  function BlockOf(prompt: string, augmentation: string): string {
    "\n\n" + prompt + "\n\n" + augmentation
  }

  function TextPart(block: string): Json {
    Obj(map["type" := Str("text"), "text" := Str(block)])
  }

  function SystemMessage(block: string): Json {
    Obj(map["role" := Str("system"), "content" := Str(block)])
  }

  /** The last index that satisfies `p` below `n`. */
  function LastIndex(xs: seq<Json>, p: Json -> bool, n: nat): (r: Option<nat>)
    requires n <= |xs|
    ensures r.Some? ==> r.value < n && p(xs[r.value]) && forall k :: r.value < k < n ==> !p(xs[k])
    ensures r.None? ==> forall k :: 0 <= k < n ==> !p(xs[k])
  {
    if n == 0 then None
    else if p(xs[n - 1]) then Some(n - 1)
    else LastIndex(xs, p, n - 1)
  }

  function Set(v: Json, key: string, x: Json): Json
    requires v.Obj?
  {
    Obj(v.members[key := x])
  }

  /** The parts of an array content with the block in or behind the last text part. */
  function AppendToParts(ps: seq<Json>, block: string): seq<Json> {
    match LastIndex(ps, IsTextPart, |ps|)
    case None => ps + [TextPart(block)]
    case Some(k) =>
      match Get(ps[k], "text")
      case Some(Str(t)) => ps[k := Set(ps[k], "text", Str(t + block))]
      case _ => ps + [TextPart(block)]
  }

  function AppendToContent(content: Option<Json>, block: string): Result<Json, Error> {
    match content
    case None => Ok(Str(block))
    case Some(Null) => Ok(Str(block))
    case Some(Str(s)) => Ok(Str(s + block))
    case Some(Arr(ps)) => Ok(Arr(AppendToParts(ps, block)))
    case _ => Err(UnsupportedContent)
  }

  /** A string `stop` becomes a list of one; any other stays. */
  function NormalizeStop(req: Json): Json
    requires req.Obj?
    ensures NormalizeStop(req).Obj?
  {
    match Get(req, "stop")
    case Some(Str(s)) => Set(req, "stop", Arr([Str(s)]))
    case _ => req
  }

  function InjectMessages(ms: seq<Json>, block: string): Result<seq<Json>, Error> {
    match LastIndex(ms, IsUser, |ms|)
    case Some(k) =>
      (match AppendToContent(Get(ms[k], "content"), block)
       case Err(e) => Err(e)
       case Ok(c) => Ok(ms[k := Set(ms[k], "content", c)]))
    case None => Ok(if ms == [] then ms else ms + [SystemMessage(block)])
  }

  function Inject(req: Json, prompt: string, augmentation: string): Result<Json, Error> {
    if !req.Obj? then Err(NotAnObject)
    else
      var body := NormalizeStop(req);
      match Messages(body)
      case None => Err(NoMessages)
      case Some(ms) =>
        match InjectMessages(ms, BlockOf(prompt, augmentation))
        case Err(e) => Err(e)
        case Ok(ms') => Ok(Set(body, "messages", Arr(ms')))
  }

  /** The injection as the source runs it: the request is a mutable value whose
      fields are overwritten in place. */
  method InjectAugmentationValue(request: Json, prompt: string, augmentation: string)
    returns (r: Result<Json, Error>)
    ensures r == Inject(request, prompt, augmentation)
  {
    if !request.Obj? {
      return Err(NotAnObject);
    }
    var body := request.members;
    if "stop" in body && body["stop"].Str? {
      body := body["stop" := Arr([body["stop"]])];
    }
    var block := "\n\n" + prompt + "\n\n" + augmentation;
    if "messages" !in body || !body["messages"].Arr? {
      return Err(NoMessages);
    }
    var messages := body["messages"].items;
    var idx: nat := |messages|;
    while idx > 0 && !IsUser(messages[idx - 1])
      invariant idx <= |messages|
      invariant LastIndex(messages, IsUser, |messages|) == LastIndex(messages, IsUser, idx)
    {
      idx := idx - 1;
    }
    if idx > 0 {
      var content := AppendBlock(Get(messages[idx - 1], "content"), block);
      if content.Err? {
        return Err(content.error);
      }
      messages := messages[idx - 1 := Obj(messages[idx - 1].members["content" := content.value])];
    } else if messages != [] {
      messages := messages + [SystemMessage(block)];
    }
    body := body["messages" := Arr(messages)];
    return Ok(Obj(body));
  }

  method AppendBlock(content: Option<Json>, block: string) returns (r: Result<Json, Error>)
    ensures r == AppendToContent(content, block)
  {
    if content.None? || content.value.Null? {
      return Ok(Str(block));
    }
    match content.value {
      case Str(existing) =>
        return Ok(Str(existing + block));
      case Arr(parts) =>
        var k: nat := |parts|;
        while k > 0 && !IsTextPart(parts[k - 1])
          invariant k <= |parts|
          invariant LastIndex(parts, IsTextPart, |parts|) == LastIndex(parts, IsTextPart, k)
        {
          k := k - 1;
        }
        if k > 0 {
          var text := Get(parts[k - 1], "text");
          if text.Some? && text.value.Str? {
            return Ok(Arr(parts[k - 1 := Obj(parts[k - 1].members["text" := Str(text.value.s + block)])]));
          }
        }
        return Ok(Arr(parts + [TextPart(block)]));
      case _ =>
        return Err(UnsupportedContent);
    }
  }

  // ---------- injection seen through extraction ----------

  /** The block ends the last text, or follows as a text of its own. */
  ghost predicate Extends(was: seq<string>, now: seq<string>, block: string, added: bool) {
    if added then now == was + [block]
    else was != [] && now == was[..|was| - 1] + [was[|was| - 1] + block]
  }

  /** A content that cannot take the block in its last text gets a part of its own. */
  predicate AddsPart(content: Option<Json>) {
    match content
    case Some(Str(_)) => false
    case Some(Arr(ps)) =>
      (match LastIndex(ps, IsTextPart, |ps|)
       case None => true
       case Some(k) => !(Get(ps[k], "text").Some? && Get(ps[k], "text").value.Str?))
    case _ => true
  }

  lemma {:induction false} UserTextsConcat(xs: seq<Json>, ys: seq<Json>)
    ensures UserTexts(xs + ys) == UserTexts(xs) + UserTexts(ys)
    decreases |xs|
  {
    hide MessageTexts;
    if xs == [] {
      assert xs + ys == ys;
    } else {
      UserTextsConcat(xs[1..], ys);
      assert (xs + ys)[1..] == xs[1..] + ys;
    }
  }

  lemma {:induction false} NoTextParts(ps: seq<Json>)
    requires forall k :: 0 <= k < |ps| ==> !IsTextPart(ps[k])
    ensures PartTexts(ps) == []
    decreases |ps|
  {
    hide IsTextPart;
    if ps != [] {
      assert !IsTextPart(ps[0]);
      NoTextParts(ps[1..]);
    }
  }

  lemma {:induction false} NoUserTexts(ms: seq<Json>)
    requires forall k :: 0 <= k < |ms| ==> !IsUser(ms[k])
    ensures UserTexts(ms) == []
    decreases |ms|
  {
    hide IsUser;
    if ms != [] {
      assert !IsUser(ms[0]);
      NoUserTexts(ms[1..]);
    }
  }

  /** A sequence around one of its elements. */
  lemma SplitAt<T>(xs: seq<T>, k: nat, y: T)
    requires k < |xs|
    ensures xs == xs[..k] + [xs[k]] + xs[k + 1..]
    ensures xs[k := y] == xs[..k] + [y] + xs[k + 1..]
  {}

  lemma OneMessage(m: Json)
    ensures UserTexts([m]) == MessageTexts(m)
  {
    assert [m][1..] == [];
  }

  lemma ExtendsAfter(pre: seq<string>, was: seq<string>, now: seq<string>, block: string, added: bool)
    requires Extends(was, now, block, added)
    ensures Extends(pre + was, pre + now, block, added)
  {
    if !added {
      assert (pre + was)[..|pre + was| - 1] == pre + was[..|was| - 1];
    }
  }

  lemma PartsExtend(ps: seq<Json>, block: string)
    ensures Extends(PartTexts(ps), PartTexts(AppendToParts(ps, block)), block, AddsPart(Some(Arr(ps))))
  {
    hide PartTexts;
    if AddsPart(Some(Arr(ps))) {
      PartTextsConcat(ps, [TextPart(block)]);
      OnePartText(TextPart(block));
    } else {
      var k := LastIndex(ps, IsTextPart, |ps|).value;
      var p' := Set(ps[k], "text", Str(Get(ps[k], "text").value.s + block));
      SplitAt(ps, k, p');
      NoTextParts(ps[k + 1..]);
      PartTextsConcat(ps[..k] + [ps[k]], ps[k + 1..]);
      PartTextsConcat(ps[..k] + [p'], ps[k + 1..]);
      PartTextsConcat(ps[..k], [ps[k]]);
      PartTextsConcat(ps[..k], [p']);
      OnePartText(ps[k]);
      OnePartText(p');
      ExtendsAfter(PartTexts(ps[..k]), PartText(ps[k]), PartText(p'), block, false);
    }
  }

  lemma ContentExtends(content: Option<Json>, block: string)
    requires AppendToContent(content, block).Ok?
    ensures Extends(ContentTexts(content), ContentTexts(Some(AppendToContent(content, block).value)),
                    block, AddsPart(content))
  {
    hide PartTexts, AppendToParts;
    match content
    case Some(Arr(ps)) => PartsExtend(ps, block);
    case _ =>
  }

  /** The content the block goes to: that of the last user message. */
  function Target(ms: seq<Json>): Option<nat> {
    LastIndex(ms, IsUser, |ms|)
  }

  lemma MessagesExtend(ms: seq<Json>, block: string)
    requires InjectMessages(ms, block).Ok?
    ensures var ms' := InjectMessages(ms, block).value;
            match Target(ms)
            case Some(k) => Extends(UserTexts(ms), UserTexts(ms'), block, AddsPart(Get(ms[k], "content")))
            case None => UserTexts(ms') == UserTexts(ms)
  {
    hide UserTexts, ContentTexts, AppendToContent, AddsPart;
    match Target(ms)
    case Some(k) =>
      var content := Get(ms[k], "content");
      var m' := Set(ms[k], "content", AppendToContent(content, block).value);
      SplitAt(ms, k, m');
      NoUserTexts(ms[k + 1..]);
      UserTextsConcat(ms[..k] + [ms[k]], ms[k + 1..]);
      UserTextsConcat(ms[..k] + [m'], ms[k + 1..]);
      UserTextsConcat(ms[..k], [ms[k]]);
      UserTextsConcat(ms[..k], [m']);
      OneMessage(ms[k]);
      OneMessage(m');
      ContentExtends(content, block);
      ExtendsAfter(UserTexts(ms[..k]), MessageTexts(ms[k]), MessageTexts(m'), block, AddsPart(content));
    case None =>
      UserTextsConcat(ms, [SystemMessage(block)]);
      OneMessage(SystemMessage(block));
  }

  lemma TextRegroup(x: string, y: string, z: string)
    ensures x + (y + z) == (x + y) + z
  {}

  lemma JoinExtends(was: seq<string>, now: seq<string>, block: string, added: bool)
    requires Extends(was, now, block, added)
    ensures Join(now) == Join(was) + (if added && was != [] then "\n" else "") + block
  {
    hide Join;
    if added {
      JoinWithOneMore(was, block);
    } else {
      JoinWithLonger(was[..|was| - 1], was[|was| - 1], block);
      assert was == was[..|was| - 1] + [was[|was| - 1]];
      NothingBetween(Join(was), block);
    }
  }

  lemma NothingBetween(x: string, y: string)
    ensures x + "" + y == x + y && "" + y == y
  {}

  lemma JoinWithOneMore(was: seq<string>, block: string)
    ensures Join(was + [block]) == Join(was) + (if was != [] then "\n" else "") + block
  {
    hide Join;
    JoinSnoc(was, block);
    JoinNothing();
    NothingBetween("", block);
  }

  lemma JoinWithLonger(front: seq<string>, last: string, block: string)
    ensures Join(front + [last + block]) == Join(front + [last]) + block
  {
    hide Join;
    JoinSnoc(front, last);
    JoinSnoc(front, last + block);
    TextRegroup(Join(front) + "\n", last, block);
  }

  lemma StopLeavesMessages(req: Json)
    requires req.Obj?
    ensures Messages(NormalizeStop(req)) == Messages(req)
  {}

  lemma InjectionExtends(req: Json, prompt: string, augmentation: string)
    requires Inject(req, prompt, augmentation).Ok?
    ensures Messages(req).Some?
    ensures var req' := Inject(req, prompt, augmentation).value;
            var ms := Messages(req).value;
            match Target(ms)
            case None => Extract(req') == Extract(req)
            case Some(k) =>
              var joint := if AddsPart(Get(ms[k], "content")) && Texts(req) != [] then "\n" else "";
              Extract(req') == Extract(req) + joint + BlockOf(prompt, augmentation)
  {
    hide UserTexts, Join, AddsPart, InjectMessages, NormalizeStop;
    StopLeavesMessages(req);
    var ms := Messages(req).value;
    var block := BlockOf(prompt, augmentation);
    MessagesExtend(ms, block);
    if Target(ms).Some? {
      JoinExtends(UserTexts(ms), UserTexts(InjectMessages(ms, block).value), block,
                  AddsPart(Get(ms[Target(ms).value], "content")));
    }
  }

  // ---------- what both do, in the terms of the request ----------

  ghost predicate ByUser(m: Json) {
    Get(m, "role") == Some(Str("user"))
  }

  ghost predicate IsLastUser(ms: seq<Json>, k: nat) {
    k < |ms| && ByUser(ms[k]) && forall j :: k < j < |ms| ==> !ByUser(ms[j])
  }

  ghost predicate NoUser(ms: seq<Json>) {
    forall j :: 0 <= j < |ms| ==> !ByUser(ms[j])
  }

  ghost predicate OfTypeText(p: Json) {
    Get(p, "type") == Some(Str("text"))
  }

  ghost predicate IsLastText(ps: seq<Json>, k: nat) {
    k < |ps| && OfTypeText(ps[k]) && forall j :: k < j < |ps| ==> !OfTypeText(ps[j])
  }

  /** A text of its own, or a list whose last part of type text holds a string. */
  ghost predicate EndsInText(content: Option<Json>) {
    match content
    case Some(Str(_)) => true
    case Some(Arr(ps)) => exists k: nat :: IsLastText(ps, k) && Get(ps[k], "text").Some? && Get(ps[k], "text").value.Str?
    case _ => false
  }

  lemma TargetIsLastUser(ms: seq<Json>)
    ensures match Target(ms) case None => NoUser(ms) case Some(k) => IsLastUser(ms, k) && !NoUser(ms)
    ensures forall k: nat :: IsLastUser(ms, k) ==> Target(ms) == Some(k)
  {}

  lemma AddsPartIs(content: Option<Json>)
    ensures AddsPart(content) <==> !EndsInText(content)
  {
    match content
    case Some(Arr(ps)) =>
      var last := LastIndex(ps, IsTextPart, |ps|);
      if last.Some? {
        assert IsLastText(ps, last.value);
        assert forall k: nat :: IsLastText(ps, k) ==> k == last.value;
      }
    case _ =>
  }

  /** The `j`-th text of message `i`: the user's, and its content or one of the content's
      text parts. */
  ghost predicate IsUserText(ms: seq<Json>, i: nat, j: nat, s: string) {
    i < |ms| && ByUser(ms[i])
    && match Get(ms[i], "content")
       case Some(Str(c)) => j == 0 && s == c
       case Some(Arr(ps)) => j < |ps| && IsPartText(ps[j], s)
       case _ => false
  }

  /** The text extracted is that of the message list, and empty without one. */
  lemma ExtractIs(req: Json)
    ensures Extract(req)
         == if req.Obj? && "messages" in req.members && req.members["messages"].Arr?
            then Join(UserTexts(req.members["messages"].items)) else ""
  {
    JoinNothing();
  }

  ghost predicate Before(x: (nat, nat), y: (nat, nat)) {
    x.0 < y.0 || (x.0 == y.0 && x.1 < y.1)
  }

  ghost predicate AreInOrder(at: seq<(nat, nat)>) {
    forall j, k :: 0 <= j < k < |at| ==> Before(at[j], at[k])
  }

  /** The texts of one message, as places in it. */
  lemma MessageTextsAre(m: Json) returns (at: seq<nat>)
    ensures |at| == |MessageTexts(m)| && forall j, k :: 0 <= j < k < |at| ==> at[j] < at[k]
    ensures forall k :: 0 <= k < |at| ==> IsUserText([m], 0, at[k], MessageTexts(m)[k])
    ensures forall j: nat, s :: IsUserText([m], 0, j, s) ==> j in at
  {
    hide PartTexts, IsPartText;
    at := [];
    if IsUser(m) {
      match Get(m, "content")
      case Some(Str(s)) => at := [0];
      case Some(Arr(ps)) => at := PartTextsAre(ps);
      case _ =>
    }
  }

  function InMessage(i: nat, js: seq<nat>): (at: seq<(nat, nat)>)
    ensures |at| == |js| && forall k :: 0 <= k < |js| ==> at[k] == (i, js[k])
  {
    seq(|js|, k requires 0 <= k < |js| => (i, js[k]))
  }

  /** The extraction reads every text of every user message, in order, and nothing else. */
  lemma {:induction false} UserTextsAre(ms: seq<Json>) returns (at: seq<(nat, nat)>)
    ensures |at| == |UserTexts(ms)| && AreInOrder(at)
    ensures forall k :: 0 <= k < |at| ==> at[k].0 < |ms| && IsUserText(ms, at[k].0, at[k].1, UserTexts(ms)[k])
    ensures forall i: nat, j: nat, s :: IsUserText(ms, i, j, s) ==> (i, j) in at
    decreases |ms|
  {
    hide UserTexts, MessageTexts, IsPartText;
    if ms == [] {
      at := [];
      NoTexts();
    } else {
      var n := |ms| - 1;
      var front, m := ms[..n], ms[n];
      var before := UserTextsAre(front);
      var js := MessageTextsAre(m);
      at := before + InMessage(n, js);
      UserTextsConcat(front, [m]);
      OneMessage(m);
      assert ms == front + [m];
      forall i: nat, j: nat, s | IsUserText(ms, i, j, s) ensures (i, j) in at {
        if i < n {
          assert IsUserText(front, i, j, s);
          assert (i, j) in before;
        } else {
          assert IsUserText([m], 0, j, s);
          var k :| 0 <= k < |js| && js[k] == j;
          assert InMessage(n, js)[k] == (i, j);
        }
      }
      forall k | 0 <= k < |at| ensures at[k].0 < |ms| && IsUserText(ms, at[k].0, at[k].1, UserTexts(ms)[k]) {
        if k < |before| {
          assert IsUserText(front, at[k].0, at[k].1, UserTexts(front)[k]);
        } else {
          assert IsUserText([m], 0, js[k - |before|], MessageTexts(m)[k - |before|]);
        }
      }
    }
  }

  /** After an injection into a request with a user message the user's text reads as
      before, and at its very end a blank line, the prompt, a blank line and the
      augmentation: behind a newline exactly when the last user message does not end in
      text and another text precedes it. Without a user message the user's text does
      not change at all. */
  lemma InjectionIsRead(req: Json, prompt: string, augmentation: string)
    requires Inject(req, prompt, augmentation).Ok?
    ensures req.Obj? && "messages" in req.members && req.members["messages"].Arr?
    ensures var ms, was := req.members["messages"].items, Extract(req);
            var now := Extract(Inject(req, prompt, augmentation).value);
            (NoUser(ms) ==> now == was)
            && forall k: nat :: IsLastUser(ms, k) ==>
                 var joint := if EndsInText(Get(ms[k], "content")) || Texts(req) == [] then "" else "\n";
                 now == was + joint + ("\n\n" + prompt + "\n\n" + augmentation)
  {
    hide Extract, Texts, AddsPart, EndsInText, Inject, Target;
    InjectionNeedsMessages(req, prompt, augmentation);
    InjectionExtends(req, prompt, augmentation);
    var ms := req.members["messages"].items;
    TargetIsLastUser(ms);
    if Target(ms).Some? {
      AddsPartIs(Get(ms[Target(ms).value], "content"));
    }
  }

  lemma InjectionNeedsMessages(req: Json, prompt: string, augmentation: string)
    requires Inject(req, prompt, augmentation).Ok?
    ensures req.Obj? && "messages" in req.members && req.members["messages"].Arr?
    ensures Messages(req) == Some(req.members["messages"].items)
  {
    StopLeavesMessages(req);
  }

  // ---------- what stays as it was ----------

  /** The same value but for the member `key`. */
  ghost predicate SameBut(v: Json, v': Json, key: string) {
    v.Obj? && v'.Obj? && v'.members.Keys == v.members.Keys + {key}
    && forall k :: k in v.members && k != key ==> v'.members[k] == v.members[k]
  }

  /** The key keeps its value, a string under `stop` becoming a list of that string. */
  ghost predicate KeepsMember(req: Json, req': Json, key: string) {
    match Get(req, key)
    case Some(Str(s)) => Get(req', key) == Some(if key == "stop" then Arr([Str(s)]) else Str(s))
    case other => Get(req', key) == other
  }

  /** Parts only ever gain: the last text part's `text`, which the block ends now, or a
      part of their own at the end. Every other part is as it was. */
  ghost predicate PartsKept(ps: seq<Json>, ps': seq<Json>, block: string) {
    if EndsInText(Some(Arr(ps))) then
      forall k: nat :: IsLastText(ps, k) ==>
        |ps'| == |ps| && SameBut(ps[k], ps'[k], "text")
        && Get(ps'[k], "text") == Some(Str(Get(ps[k], "text").value.s + block))
        && forall j :: 0 <= j < |ps| && j != k ==> ps'[j] == ps[j]
    else ps' == ps + [Obj(map["type" := Str("text"), "text" := Str(block)])]
  }

  ghost predicate ContentKept(content: Option<Json>, content': Option<Json>, block: string) {
    match content
    case Some(Arr(ps)) => content'.Some? && content'.value.Arr? && PartsKept(ps, content'.value.items, block)
    case Some(Str(s)) => content' == Some(Str(s + block))
    case _ => content' == Some(Str(block))
  }

  lemma ContentIsKept(content: Option<Json>, block: string)
    requires AppendToContent(content, block).Ok?
    ensures ContentKept(content, Some(AppendToContent(content, block).value), block)
  {
    hide AppendToParts, PartsKept;
    match content
    case Some(Arr(ps)) => PartsAreKept(ps, block);
    case _ =>
  }

  lemma PartsAreKept(ps: seq<Json>, block: string)
    ensures PartsKept(ps, AppendToParts(ps, block), block)
  {
    hide IsTextPart, AddsPart, EndsInText, IsLastText;
    AddsPartIs(Some(Arr(ps)));
    LastTextIs(ps);
    AppendToPartsIs(ps, block);
  }

  lemma LastTextIs(ps: seq<Json>)
    ensures forall k: nat :: IsLastText(ps, k) ==> LastIndex(ps, IsTextPart, |ps|) == Some(k)
  {}

  lemma AppendToPartsIs(ps: seq<Json>, block: string)
    ensures var last := LastIndex(ps, IsTextPart, |ps|);
            if AddsPart(Some(Arr(ps))) then AppendToParts(ps, block) == ps + [TextPart(block)]
            else
              last.Some? && Get(ps[last.value], "text").Some? && Get(ps[last.value], "text").value.Str?
              && AppendToParts(ps, block)
                 == ps[last.value := Set(ps[last.value], "text", Str(Get(ps[last.value], "text").value.s + block))]
  {}

  /** Outside `messages` nothing changes but a string `stop`. Without a user message one
      system message with the block follows the others, if there are any. Else nothing
      changes outside the last user message's content, and in its content only the text
      the block ends: a blank line, the prompt, a blank line, the augmentation. */
  lemma InjectionTouchesOnlyItsTarget(req: Json, prompt: string, augmentation: string)
    requires Inject(req, prompt, augmentation).Ok?
    ensures req.Obj? && "messages" in req.members && req.members["messages"].Arr?
    ensures var req' := Inject(req, prompt, augmentation).value;
            var ms, block := req.members["messages"].items, "\n\n" + prompt + "\n\n" + augmentation;
            (forall key :: key != "messages" ==> KeepsMember(req, req', key))
            && Messages(req').Some?
            && var ms' := Messages(req').value;
               (NoUser(ms) ==>
                  ms' == if ms == [] then [] else ms + [Obj(map["role" := Str("system"), "content" := Str(block)])])
               && forall k: nat :: IsLastUser(ms, k) ==>
                    |ms'| == |ms| && SameBut(ms[k], ms'[k], "content")
                    && ContentKept(Get(ms[k], "content"), Get(ms'[k], "content"), block)
                    && forall j :: 0 <= j < |ms| && j != k ==> ms'[j] == ms[j]
  {
    hide AppendToContent, ContentKept, IsLastUser, NoUser, Target;
    InjectionNeedsMessages(req, prompt, augmentation);
    StopLeavesMessages(req);
    StopIsAllThatChanges(req);
    var ms := req.members["messages"].items;
    TargetIsLastUser(ms);
    InjectedMessages(req, prompt, augmentation);
    if Target(ms).Some? {
      ContentIsKept(Get(ms[Target(ms).value], "content"), BlockOf(prompt, augmentation));
    }
  }

  lemma StopIsAllThatChanges(req: Json)
    requires req.Obj?
    ensures forall key :: KeepsMember(req, NormalizeStop(req), key)
  {}

  lemma InjectedMessages(req: Json, prompt: string, augmentation: string)
    requires Inject(req, prompt, augmentation).Ok? && Messages(req).Some?
    ensures var req' := Inject(req, prompt, augmentation).value;
            var ms, block := Messages(req).value, BlockOf(prompt, augmentation);
            req' == Set(NormalizeStop(req), "messages", Arr(InjectMessages(ms, block).value))
            && InjectMessages(ms, block).Ok?
            && match Target(ms)
               case None => InjectMessages(ms, block).value == if ms == [] then ms else ms + [SystemMessage(block)]
               case Some(k) =>
                 AppendToContent(Get(ms[k], "content"), block).Ok?
                 && InjectMessages(ms, block).value
                    == ms[k := Set(ms[k], "content", AppendToContent(Get(ms[k], "content"), block).value)]
  {
    hide AppendToContent;
    StopLeavesMessages(req);
  }

  ghost predicate LastUserHasOddContent(ms: seq<Json>) {
    exists k: nat :: IsLastUser(ms, k) && IsOdd(Get(ms[k], "content"))
  }

  predicate IsOdd(content: Option<Json>) {
    content.Some? && (content.value.Bool? || content.value.Num? || content.value.Obj?)
  }

  /** The injection fails exactly on a body that is no object, has no message list,
      or whose last user message has a content that is neither absent, null, text
      nor a list of parts; each of the three with its own error. */
  lemma InjectionFailsOnlyOnShape(req: Json, prompt: string, augmentation: string)
    ensures var r := Inject(req, prompt, augmentation);
            (r == Err(NotAnObject) <==> !req.Obj?)
            && (r == Err(NoMessages) <==> req.Obj? && !("messages" in req.members && req.members["messages"].Arr?))
            && (r == Err(UnsupportedContent) <==>
                  Messages(req).Some? && LastUserHasOddContent(Messages(req).value))
  {
    if req.Obj? {
      StopLeavesMessages(req);
      if Messages(req).Some? {
        var ms := Messages(req).value;
        TargetIsLastUser(ms);
        if Target(ms).Some? {
          assert LastUserHasOddContent(ms) <==> IsOdd(Get(ms[Target(ms).value], "content"));
        }
      }
    }
  }
}
