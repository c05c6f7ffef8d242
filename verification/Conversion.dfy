/** The two conversions between Anthropic messages and OpenAI chat completions
    (llama-proxy/src/api/openai.rs:151-246, 354-399, 513-728). */
module Conversion {
  import opened Options
  import opened JsonValue

  const U64: nat := 0x1_0000_0000_0000_0000
  const U32: nat := 0x1_0000_0000

  // ---------- the two formats ----------

  datatype Block =
    | Text(text: string)
    | Thinking(thinking: string, signature: Option<string>)
    | ToolUse(id: string, name: string, input: Json)
    | ToolResult(toolUseId: string, content: Json, isError: Option<bool>)
    | Other(raw: Json)

  datatype Message = Message(
    id: string, messageType: string, role: string, content: seq<Block>, model: string,
    stopReason: Option<string>, stopSequence: Option<string>, inputTokens: nat, outputTokens: nat)

  datatype ToolCall = ToolCall(
    id: Option<string>, callType: Option<string>, index: Option<nat>, name: string, arguments: string)

  datatype ResponseMessage = ResponseMessage(
    role: string, content: Option<string>, toolCalls: Option<seq<ToolCall>>,
    reasoningText: Option<string>, reasoningOpaque: Option<string>)

  /** `delta`, `details` and `timings` are only ever dropped: kept as raw JSON. */
  datatype Choice = Choice(
    index: nat, message: Option<ResponseMessage>, delta: Option<Json>, finishReason: Option<string>)

  datatype Usage = Usage(promptTokens: nat, completionTokens: nat, totalTokens: nat, details: Option<Json>)

  datatype Completion = Completion(
    id: string, object_: string, created: int, model: string, choices: seq<Choice>,
    usage: Option<Usage>, timings: Option<Json>)

  /** JSON text to value and back, and the ids made up for calls that have none. */
  datatype Codec = Codec(render: Json -> string, parse: string -> Option<Json>, newId: nat -> string)

  const EMPTY_OBJECT: Json := Obj(map[])

  /** Printing what was parsed parses to the same value. */
  ghost predicate Settles(cx: Codec) {
    (forall s :: cx.parse(s).Some? ==> cx.parse(cx.render(cx.parse(s).value)) == cx.parse(s))
    && cx.parse(cx.render(Obj(map[]))) == Some(Obj(map[]))
  }

  // ---------- Anthropic to OpenAI ----------

  /** What one block adds to the message content. */
  function TextOf(b: Block): seq<string> {
    match b
    case Text(t) => [t]
    case ToolResult(_, Str(s), _) => [s]
    case ToolResult(_, Arr(parts), _) => if PartTexts(parts) == [] then [] else [Join(PartTexts(parts))]
    case _ => []
  }

  function TextParts(bs: seq<Block>): seq<string> {
    if bs == [] then [] else TextOf(bs[0]) + TextParts(bs[1..])
  }

  function ReasoningParts(bs: seq<Block>): seq<string> {
    if bs == [] then []
    else (if bs[0].Thinking? then [bs[0].thinking] else []) + ReasoningParts(bs[1..])
  }

  function FirstSignature(bs: seq<Block>): Option<string> {
    if bs == [] then None
    else if bs[0].Thinking? && bs[0].signature.Some? then bs[0].signature
    else FirstSignature(bs[1..])
  }

  function CallOf(cx: Codec, b: Block, index: nat): ToolCall
    requires b.ToolUse?
  {
    ToolCall(Some(b.id), Some("function"), Some(index % U32), b.name, cx.render(b.input))
  }

  /** The tool calls, numbered from `from`. */
  function Calls(cx: Codec, bs: seq<Block>, from: nat): seq<ToolCall> {
    if bs == [] then []
    else if bs[0].ToolUse? then [CallOf(cx, bs[0], from)] + Calls(cx, bs[1..], from + 1)
    else Calls(cx, bs[1..], from)
  }

  function FinishOf(stop: string): string {
    if stop == "end_turn" then "stop"
    else if stop == "max_tokens" then "length"
    else if stop == "stop_sequence" then "stop"
    else if stop == "tool_use" then "tool_calls"
    else stop
  }

  function MapOption(f: string -> string, o: Option<string>): Option<string> {
    match o case None => None case Some(s) => Some(f(s))
  }

  function JoinOption(parts: seq<string>): Option<string> {
    if parts == [] then None else Some(Join(parts))
  }

  function ToOpenAI(cx: Codec, m: Message): Completion {
    var calls := Calls(cx, m.content, 0);
    var message := ResponseMessage(
      m.role, JoinOption(TextParts(m.content)), if calls == [] then None else Some(calls),
      JoinOption(ReasoningParts(m.content)), FirstSignature(m.content));
    Completion(
      m.id, "chat.completion", 0, m.model,
      [Choice(0, Some(message), None, MapOption(FinishOf, m.stopReason))],
      Some(Usage(m.inputTokens, m.outputTokens, (m.inputTokens + m.outputTokens) % U64, None)),
      None)
  }

  // ---------- OpenAI to Anthropic ----------

  function UseOf(cx: Codec, c: ToolCall, k: nat): Block {
    ToolUse(
      match c.id case Some(id) => id case None => cx.newId(k),
      c.name,
      ReadBack(cx, c.arguments))
  }

  /** What printed arguments stand for: an empty object when they do not parse. */
  function ReadBack(cx: Codec, arguments: string): Json {
    match cx.parse(arguments) case Some(v) => v case None => EMPTY_OBJECT
  }

  function Uses(cx: Codec, cs: seq<ToolCall>, k: nat): (bs: seq<Block>)
    ensures |bs| == |cs| && forall j :: 0 <= j < |cs| ==> bs[j] == UseOf(cx, cs[j], k + j)
    decreases |cs|
  {
    if cs == [] then [] else [UseOf(cx, cs[0], k)] + Uses(cx, cs[1..], k + 1)
  }

  function BlocksOf(cx: Codec, m: ResponseMessage): seq<Block> {
    var blocks :=
      (match m.reasoningText case Some(r) => [Thinking(r, None)] case None => [])
      + (match m.content case Some(t) => (if t != "" then [Text(t)] else []) case None => [])
      + (match m.toolCalls case Some(cs) => Uses(cx, cs, 0) case None => []);
    if blocks == [] then [Text("")] else blocks
  }

  function StopOf(finish: string): string {
    if finish == "stop" then "end_turn"
    else if finish == "length" then "max_tokens"
    else if finish == "tool_calls" then "tool_use"
    else finish
  }

  function FirstFinish(r: Completion): Option<string> {
    if r.choices == [] then None else r.choices[0].finishReason
  }

  function ToAnthropic(cx: Codec, r: Completion): Message {
    var content :=
      if r.choices == [] || r.choices[0].message.None? then [Text("")]
      else BlocksOf(cx, r.choices[0].message.value);
    var (input, output) :=
      match r.usage case Some(u) => (u.promptTokens, u.completionTokens) case None => (0, 0);
    Message(
      r.id, "message", "assistant", content, r.model, MapOption(StopOf, FirstFinish(r)), None, input, output)
  }

  // ---------- the code ----------

  lemma StepBlock(cx: Codec, bs: seq<Block>, i: nat, from: nat)
    requires i < |bs|
    ensures TextParts(bs[i..]) == TextOf(bs[i]) + TextParts(bs[i + 1..])
    ensures ReasoningParts(bs[i..]) == (if bs[i].Thinking? then [bs[i].thinking] else []) + ReasoningParts(bs[i + 1..])
    ensures FirstSignature(bs[i..])
         == if bs[i].Thinking? && bs[i].signature.Some? then bs[i].signature else FirstSignature(bs[i + 1..])
    ensures Calls(cx, bs[i..], from)
         == if bs[i].ToolUse? then [CallOf(cx, bs[i], from)] + Calls(cx, bs[i + 1..], from + 1)
            else Calls(cx, bs[i + 1..], from)
  {
    assert bs[i..][1..] == bs[i + 1..];
  }

  lemma Shift<T>(xs: seq<T>, ys: seq<T>, zs: seq<T>)
    ensures xs + (ys + zs) == (xs + ys) + zs && xs + [] == xs
  {}

  method AnthropicToOpenAI(cx: Codec, msg: Message) returns (r: Completion)
    ensures r == ToOpenAI(cx, msg)
  {
    hide TextParts, ReasoningParts, FirstSignature, Calls;
    var contentParts: seq<string> := [];
    var toolCalls: seq<ToolCall> := [];
    var reasoningParts: seq<string> := [];
    var reasoningOpaque: Option<string> := None;
    var bs := msg.content;
    assert bs[0..] == bs;
    var i := 0;
    while i < |bs|
      invariant 0 <= i <= |bs|
      invariant TextParts(bs) == contentParts + TextParts(bs[i..])
      invariant Calls(cx, bs, 0) == toolCalls + Calls(cx, bs[i..], |toolCalls|)
      invariant ReasoningParts(bs) == reasoningParts + ReasoningParts(bs[i..])
      invariant FirstSignature(bs) == if reasoningOpaque.Some? then reasoningOpaque else FirstSignature(bs[i..])
    {
      StepBlock(cx, bs, i, |toolCalls|);
      Shift(contentParts, TextOf(bs[i]), TextParts(bs[i + 1..]));
      match bs[i] {
        case Text(text) =>
          contentParts := contentParts + [text];
        case Thinking(thinking, signature) =>
          Shift(reasoningParts, [thinking], ReasoningParts(bs[i + 1..]));
          reasoningParts := reasoningParts + [thinking];
          if reasoningOpaque.None? {
            reasoningOpaque := signature;
          }
        case ToolUse(id, name, input) =>
          var call := ToolCall(Some(id), Some("function"), Some(|toolCalls| % U32), name, cx.render(input));
          Shift(toolCalls, [call], Calls(cx, bs[i + 1..], |toolCalls| + 1));
          toolCalls := toolCalls + [call];
        case ToolResult(_, content, _) =>
          match content {
            case Str(s) => contentParts := contentParts + [s];
            case Arr(parts) =>
              var texts := PartTexts(parts);
              if texts != [] {
                contentParts := contentParts + [Join(texts)];
              }
            case _ =>
          }
        case Other(_) =>
      }
      i := i + 1;
    }
    NoBlocks(cx, |toolCalls|);
    assert bs[i..] == [];
    Shift(contentParts, [], []);
    Shift(toolCalls, [], []);
    Shift(reasoningParts, [], []);
    var message := ResponseMessage(
      msg.role,
      if contentParts == [] then None else Some(Join(contentParts)),
      if toolCalls == [] then None else Some(toolCalls),
      if reasoningParts == [] then None else Some(Join(reasoningParts)),
      reasoningOpaque);
    r := Completion(
      msg.id, "chat.completion", 0, msg.model,
      [Choice(0, Some(message), None, MapOption(FinishOf, msg.stopReason))],
      Some(Usage(msg.inputTokens, msg.outputTokens, (msg.inputTokens + msg.outputTokens) % U64, None)),
      None);
  }

  lemma NoBlocks(cx: Codec, from: nat)
    ensures TextParts([]) == [] && ReasoningParts([]) == [] && FirstSignature([]) == None && Calls(cx, [], from) == []
  {}

  method UsesOf(cx: Codec, front: seq<Block>, cs: seq<ToolCall>) returns (blocks: seq<Block>)
    ensures blocks == front + Uses(cx, cs, 0)
  {
    hide Uses, ReadBack;
    blocks := front;
    var i := 0;
    assert cs[0..] == cs;
    while i < |cs|
      invariant 0 <= i <= |cs|
      invariant front + Uses(cx, cs, 0) == blocks + Uses(cx, cs[i..], i)
    {
      UsesStep(cx, cs, i);
      var parsed := cx.parse(cs[i].arguments);
      var input := if parsed.Some? then parsed.value else EMPTY_OBJECT;
      ReadBackIs(cx, cs[i].arguments);
      var id := if cs[i].id.Some? then cs[i].id.value else cx.newId(i);
      Shift(blocks, [ToolUse(id, cs[i].name, input)], Uses(cx, cs[i + 1..], i + 1));
      blocks := blocks + [ToolUse(id, cs[i].name, input)];
      i := i + 1;
    }
    NoUses(cx, i);
    assert cs[i..] == [];
  }

  lemma UsesStep(cx: Codec, cs: seq<ToolCall>, i: nat)
    requires i < |cs|
    ensures Uses(cx, cs[i..], i) == [UseOf(cx, cs[i], i)] + Uses(cx, cs[i + 1..], i + 1)
  {
    assert cs[i..][1..] == cs[i + 1..];
  }

  lemma ReadBackIs(cx: Codec, text: string)
    ensures ReadBack(cx, text) == if cx.parse(text).Some? then cx.parse(text).value else EMPTY_OBJECT
  {}

  lemma NoUses(cx: Codec, k: nat)
    ensures Uses(cx, [], k) == []
  {}

  method BlocksFrom(cx: Codec, msg: ResponseMessage) returns (blocks: seq<Block>)
    ensures blocks == BlocksOf(cx, msg)
  {
    hide Uses;
    blocks := [];
    if msg.reasoningText.Some? {
      blocks := blocks + [Thinking(msg.reasoningText.value, None)];
    }
    if msg.content.Some? && msg.content.value != "" {
      blocks := blocks + [Text(msg.content.value)];
    }
    if msg.toolCalls.Some? {
      blocks := UsesOf(cx, blocks, msg.toolCalls.value);
    }
    if blocks == [] {
      blocks := [Text("")];
    }
  }

  method OpenAIToAnthropic(cx: Codec, resp: Completion) returns (m: Message)
    ensures m == ToAnthropic(cx, resp)
  {
    hide BlocksOf;
    var blocks := [Text("")];
    if resp.choices != [] && resp.choices[0].message.Some? {
      blocks := BlocksFrom(cx, resp.choices[0].message.value);
    }
    var input, output := 0, 0;
    if resp.usage.Some? {
      input, output := resp.usage.value.promptTokens, resp.usage.value.completionTokens;
    }
    m := Message(
      resp.id, "message", "assistant", blocks, resp.model, MapOption(StopOf, FirstFinish(resp)), None, input, output);
  }

  // ---------- blocks there and back ----------

  /** Where the tool uses of normal blocks start. */
  ghost function UsesFrom(bs: seq<Block>): (t: nat)
    requires bs != []
    ensures t <= |bs|
  {
    var r := ThinkingFirst(bs);
    if r < |bs| && bs[r].Text? && bs[r].text != "" then r + 1 else r
  }

  ghost function ThinkingFirst(bs: seq<Block>): (r: nat)
    requires bs != []
    ensures r <= 1
  {
    if bs[0].Thinking? && bs[0].signature.None? then 1 else 0
  }

  /** What a conversion to Anthropic always yields: thinking without a signature,
      then non-empty text, then tool uses; or one empty text. */
  ghost predicate NormalBlocks(bs: seq<Block>) {
    bs == [Text("")]
    || (bs != []
        && forall k :: UsesFrom(bs) <= k < |bs| ==> bs[k].ToolUse?)
  }

  lemma BlocksAreNormal(cx: Codec, m: ResponseMessage)
    ensures NormalBlocks(BlocksOf(cx, m))
  {
    var uses := match m.toolCalls case Some(cs) => Uses(cx, cs, 0) case None => [];
    assert forall k :: 0 <= k < |uses| ==> uses[k].ToolUse?;
  }

  lemma ContentIsNormal(cx: Codec, r: Completion)
    ensures NormalBlocks(ToAnthropic(cx, r).content)
  {
    if r.choices != [] && r.choices[0].message.Some? {
      BlocksAreNormal(cx, r.choices[0].message.value);
    }
  }

  lemma {:induction false} OnlyUses(cx: Codec, bs: seq<Block>, from: nat)
    requires forall k :: 0 <= k < |bs| ==> bs[k].ToolUse?
    ensures TextParts(bs) == [] && ReasoningParts(bs) == [] && FirstSignature(bs) == None
    ensures |Calls(cx, bs, from)| == |bs|
    ensures forall k :: 0 <= k < |bs| ==> Calls(cx, bs, from)[k] == CallOf(cx, bs[k], from + k)
    decreases |bs|
  {
    hide CallOf, TextParts, ReasoningParts, FirstSignature, Calls;
    assert bs[0..] == bs;
    if bs == [] {
      NoBlocks(cx, from);
    } else {
      OnlyUses(cx, bs[1..], from + 1);
      StepBlock(cx, bs, 0, from);
      assert TextOf(bs[0]) == [];
    }
  }

  /** The input of every tool use is what its text is read back as. */
  ghost predicate InputsReturn(cx: Codec, bs: seq<Block>) {
    forall k :: 0 <= k < |bs| ==> bs[k].ToolUse? ==> ReadBack(cx, cx.render(bs[k].input)) == bs[k].input
  }

  /** The text of the input of every tool use parses, and to that input. */
  ghost predicate InputsSettle(cx: Codec, bs: seq<Block>) {
    forall k :: 0 <= k < |bs| ==> bs[k].ToolUse? ==> cx.parse(cx.render(bs[k].input)) == Some(bs[k].input)
  }

  lemma UsesInvertCalls(cx: Codec, bs: seq<Block>)
    requires forall k :: 0 <= k < |bs| ==> bs[k].ToolUse?
    ensures |Uses(cx, Calls(cx, bs, 0), 0)| == |bs|
    ensures Uses(cx, Calls(cx, bs, 0), 0) == bs <==> InputsReturn(cx, bs)
  {
    hide Calls, Uses, ReadBack;
    OnlyUses(cx, bs, 0);
    var us := Uses(cx, Calls(cx, bs, 0), 0);
    forall k | 0 <= k < |bs|
      ensures us[k] == bs[k] <==> ReadBack(cx, cx.render(bs[k].input)) == bs[k].input
    {
      assert us[k] == UseOf(cx, CallOf(cx, bs[k], k), k);
    }
  }

  lemma NormalParts(cx: Codec, bs: seq<Block>)
    requires NormalBlocks(bs) && bs != [Text("")]
    ensures var r, t := ThinkingFirst(bs), UsesFrom(bs);
            (forall k :: t <= k < |bs| ==> bs[k].ToolUse?)
            && ReasoningParts(bs) == (if r == 1 then [bs[0].thinking] else [])
            && TextParts(bs) == (if t > r then [bs[r].text] else [])
            && FirstSignature(bs) == None && Calls(cx, bs, 0) == Calls(cx, bs[t..], 0)
  {
    hide TextParts, ReasoningParts, FirstSignature, Calls;
    var t := UsesFrom(bs);
    OnlyUses(cx, bs[t..], 0);
    assert bs[0..] == bs;
    if t > 0 {
      StepBlock(cx, bs, 0, 0);
    }
    if t == 2 {
      StepBlock(cx, bs, 1, 0);
    }
  }

  lemma EmptyTextParts(cx: Codec)
    ensures TextParts([Text("")]) == [""] && ReasoningParts([Text("")]) == []
    ensures FirstSignature([Text("")]) == None && Calls(cx, [Text("")], 0) == []
  {
    var bs := [Text("")];
    assert bs[0..] == bs && bs[1..] == [];
    StepBlock(cx, bs, 0, 0);
    NoBlocks(cx, 0);
  }

  /** Normal blocks come back unchanged from a trip through the OpenAI format exactly
      when the inputs of their tool uses are read back as they were. */
  lemma NormalBlocksReturn(cx: Codec, m: Message)
    requires NormalBlocks(m.content)
    ensures ToAnthropic(cx, ToOpenAI(cx, m)).content == m.content <==> InputsReturn(cx, m.content)
  {
    hide Uses, TextParts, ReasoningParts, FirstSignature, Calls, InputsReturn, FinishOf, StopOf, NormalBlocks, JoinOption;
    hide ToOpenAI, ToAnthropic, UsesFrom, ThinkingFirst;
    var bs := m.content;
    NormalIsNonempty(bs);
    if bs == [Text("")] {
      EmptyTextReturns(cx, m);
      NoInputs(cx);
    } else {
      var r, t := ThinkingFirst(bs), UsesFrom(bs);
      var us := Uses(cx, Calls(cx, bs[t..], 0), 0);
      NormalParts(cx, bs);
      FrontBlocks(bs);
      InputsOfTail(cx, bs, t);
      UsesInvertCalls(cx, bs[t..]);
      ThreeParts(bs, r, t, us);
      PartsJoin(cx, bs);
      ContentInThree(cx, m, bs[..r], bs[r..t], us);
      SameFront(bs[..r] + bs[r..t], bs[t..], us);
    }
  }

  lemma EmptyTextReturns(cx: Codec, m: Message)
    requires m.content == [Text("")]
    ensures ToAnthropic(cx, ToOpenAI(cx, m)).content == m.content
  {
    hide Uses, TextParts, ReasoningParts, FirstSignature, Calls, FinishOf, StopOf;
    EmptyTextParts(cx);
  }

  lemma ThreeParts(bs: seq<Block>, r: nat, t: nat, us: seq<Block>)
    requires bs != [] && r <= t <= |bs| && |us| == |bs| - t
    ensures bs == bs[..r] + bs[r..t] + bs[t..]
    ensures bs[..r] + bs[r..t] + us != []
  {
    assert |bs[..r] + bs[r..t] + us| == |bs|;
  }

  lemma PartsJoin(cx: Codec, bs: seq<Block>)
    requires NormalBlocks(bs) && bs != [Text("")]
    ensures var r, t := ThinkingFirst(bs), UsesFrom(bs);
            JoinOption(ReasoningParts(bs)) == (if r == 1 then Some(bs[0].thinking) else None)
            && JoinOption(TextParts(bs)) == (if t > r then Some(bs[r].text) else None)
  {
    hide TextParts, ReasoningParts, FirstSignature, Calls;
    NormalParts(cx, bs);
  }

  lemma NormalIsNonempty(bs: seq<Block>)
    requires NormalBlocks(bs)
    ensures bs != []
  {}

  lemma NoInputs(cx: Codec)
    ensures InputsReturn(cx, [Text("")])
  {}

  lemma SameFront(front: seq<Block>, xs: seq<Block>, ys: seq<Block>)
    ensures front + xs == front + ys <==> xs == ys
  {
    assert (front + xs)[|front|..] == xs && (front + ys)[|front|..] == ys;
  }

  /** The content of the message that comes back, by its three parts. */
  lemma ContentInThree(cx: Codec, m: Message, rs: seq<Block>, ts: seq<Block>, us: seq<Block>)
    requires rs + ts + us != []
    requires rs == match JoinOption(ReasoningParts(m.content)) case Some(x) => [Thinking(x, None)] case None => []
    requires ts == match JoinOption(TextParts(m.content)) case Some(x) => (if x != "" then [Text(x)] else []) case None => []
    requires us == Uses(cx, Calls(cx, m.content, 0), 0)
    ensures ToAnthropic(cx, ToOpenAI(cx, m)).content == rs + ts + us
  {
    hide Uses, TextParts, ReasoningParts, FirstSignature, Calls, FinishOf, StopOf, JoinOption;
    assert Calls(cx, m.content, 0) == [] ==> us == [];
    BlocksInThree(cx, ToOpenAI(cx, m).choices[0].message.value, rs, ts, us);
  }

  lemma FrontBlocks(bs: seq<Block>)
    requires NormalBlocks(bs) && bs != [Text("")]
    ensures var r, t := ThinkingFirst(bs), UsesFrom(bs);
            r <= t <= |bs| && t <= r + 1 && (forall k :: 0 <= k < t ==> !bs[k].ToolUse?) && bs[..r] == (if r == 1 then [Thinking(bs[0].thinking, None)] else [])
            && bs[r..t] == (if t > r then [Text(bs[r].text)] else []) && (t > r ==> bs[r].text != "")
  {}

  /** What each field of a response message contributes. */
  lemma BlocksInThree(cx: Codec, rm: ResponseMessage, rs: seq<Block>, ts: seq<Block>, us: seq<Block>)
    requires rs + ts + us != []
    requires rs == match rm.reasoningText case Some(x) => [Thinking(x, None)] case None => []
    requires ts == match rm.content case Some(x) => (if x != "" then [Text(x)] else []) case None => []
    requires us == match rm.toolCalls case Some(cs) => Uses(cx, cs, 0) case None => []
    ensures BlocksOf(cx, rm) == rs + ts + us
  {
    hide Uses;
  }

  lemma InputsOfTail(cx: Codec, bs: seq<Block>, t: nat)
    requires t <= |bs| && forall k :: 0 <= k < t ==> !bs[k].ToolUse?
    ensures InputsReturn(cx, bs[t..]) <==> InputsReturn(cx, bs)
  {
    hide ReadBack;
    var us := bs[t..];
    assert forall k :: 0 <= k < |us| ==> us[k] == bs[t + k];
    if InputsReturn(cx, us) {
      forall k | 0 <= k < |bs| && bs[k].ToolUse?
        ensures ReadBack(cx, cx.render(bs[k].input)) == bs[k].input
      {
        assert bs[k] == us[k - t];
      }
    }
  }

  lemma SettledReturn(cx: Codec, bs: seq<Block>)
    requires InputsSettle(cx, bs)
    ensures InputsReturn(cx, bs)
  {}

  lemma SettleTail(cx: Codec, bs: seq<Block>, t: nat)
    requires InputsSettle(cx, bs) && t <= |bs|
    ensures InputsSettle(cx, bs[t..])
  {
    assert forall k :: 0 <= k < |bs[t..]| ==> bs[t..][k] == bs[t + k];
  }

  // ---------- texts of any message ----------

  /** The text a block adds to the content: its own, a tool result's, or the joined texts
      of a tool result's text parts, if it has any. */
  ghost predicate Says(b: Block, s: string) {
    match b
    case Text(text) => s == text
    case ToolResult(_, Str(text), _) => s == text
    case ToolResult(_, Arr(parts), _) => PartTexts(parts) != [] && s == Join(PartTexts(parts))
    case _ => false
  }

  ghost predicate Thinks(b: Block, s: string) {
    b.Thinking? && s == b.thinking
  }

  lemma {:induction false} TextPartsSnoc(bs: seq<Block>, b: Block)
    ensures TextParts(bs + [b]) == TextParts(bs) + TextOf(b)
    ensures ReasoningParts(bs + [b]) == ReasoningParts(bs) + if b.Thinking? then [b.thinking] else []
    decreases |bs|
  {
    hide TextOf;
    if bs == [] {
      assert ([] + [b])[1..] == [] && TextOf(b) + [] == TextOf(b);
    } else {
      TextPartsSnoc(bs[1..], b);
      assert (bs + [b])[1..] == bs[1..] + [b];
    }
  }

  lemma TextOfIs(b: Block)
    ensures |TextOf(b)| <= 1 && forall s :: Says(b, s) <==> TextOf(b) == [s]
  {}

  /** The texts of the content are those of all blocks that say something, in order. */
  lemma {:induction false} TextPartsAre(bs: seq<Block>) returns (at: seq<nat>)
    ensures |at| == |TextParts(bs)| && IsIncreasing(at, |bs|)
    ensures forall k :: 0 <= k < |at| ==> Says(bs[at[k]], TextParts(bs)[k])
    ensures forall i: nat, s :: i < |bs| && Says(bs[i], s) ==> i in at
    decreases |bs|
  {
    hide TextParts, Says, TextOf, ReasoningParts;
    if bs == [] {
      at := [];
      NothingSaid();
    } else {
      var n := |bs| - 1;
      at := TextPartsAre(bs[..n]);
      assert bs == bs[..n] + [bs[n]];
      TextPartsSnoc(bs[..n], bs[n]);
      TextOfIs(bs[n]);
      if TextOf(bs[n]) != [] {
        assert TextOf(bs[n]) == [TextOf(bs[n])[0]];
        at := at + [n];
      }
    }
  }

  lemma NothingSaid()
    ensures TextParts([]) == [] && ReasoningParts([]) == []
  {}

  /** The reasoning is that of all thinking blocks, in order. */
  lemma {:induction false} ReasoningPartsAre(bs: seq<Block>) returns (at: seq<nat>)
    ensures |at| == |ReasoningParts(bs)| && IsIncreasing(at, |bs|)
    ensures forall k :: 0 <= k < |at| ==> Thinks(bs[at[k]], ReasoningParts(bs)[k])
    ensures forall i: nat, s :: i < |bs| && Thinks(bs[i], s) ==> i in at
    decreases |bs|
  {
    hide TextParts, TextOf, ReasoningParts;
    if bs == [] {
      at := [];
      NothingSaid();
    } else {
      var n := |bs| - 1;
      at := ReasoningPartsAre(bs[..n]);
      assert bs == bs[..n] + [bs[n]];
      TextPartsSnoc(bs[..n], bs[n]);
      if bs[n].Thinking? {
        at := at + [n];
      }
    }
  }

  /** The signature kept is that of the first thinking block that has one. */
  lemma {:induction false} FirstSignatureIs(bs: seq<Block>)
    ensures match FirstSignature(bs)
            case None => forall k :: 0 <= k < |bs| ==> !(bs[k].Thinking? && bs[k].signature.Some?)
            case Some(s) =>
              exists k :: 0 <= k < |bs| && bs[k].Thinking? && bs[k].signature == Some(s)
                && forall j :: 0 <= j < k ==> !(bs[j].Thinking? && bs[j].signature.Some?)
    decreases |bs|
  {
    if bs != [] && !(bs[0].Thinking? && bs[0].signature.Some?) {
      FirstSignatureIs(bs[1..]);
      assert forall k :: 1 <= k < |bs| ==> bs[k] == bs[1..][k - 1];
      if FirstSignature(bs).Some? {
        var k :| 0 <= k < |bs[1..]| && bs[1..][k].Thinking? && bs[1..][k].signature == FirstSignature(bs)
          && forall j :: 0 <= j < k ==> !(bs[1..][j].Thinking? && bs[1..][j].signature.Some?);
        assert bs[k + 1].signature == FirstSignature(bs);
      }
    }
  }

  // ---------- tool calls of any message ----------

  function UseCount(bs: seq<Block>): nat {
    if bs == [] then 0 else (if bs[0].ToolUse? then 1 else 0) + UseCount(bs[1..])
  }

  lemma {:induction false} CallsKeepOrder(cx: Codec, bs: seq<Block>, from: nat, i: nat)
    requires i <= |bs|
    ensures |Calls(cx, bs, from)| == UseCount(bs)
    ensures i < |bs| && bs[i].ToolUse? ==>
              var k := UseCount(bs[..i]);
              k < UseCount(bs) && Calls(cx, bs, from)[k] == CallOf(cx, bs[i], from + k)
    decreases |bs|
  {
    hide CallOf;
    if bs != [] {
      CallsKeepOrder(cx, bs[1..], if bs[0].ToolUse? then from + 1 else from, if i == 0 then 0 else i - 1);
      if 0 < i < |bs| {
        assert bs[..i][1..] == bs[1..][..i - 1];
      }
    }
  }

  /** Whatever stands between them, the tool uses of a message become its tool calls:
      the i-th block, the k-th of its kind, is call number k with its id, name and
      printed input; there are no calls at all exactly when there is no tool use. */
  lemma ToolUsesBecomeCalls(cx: Codec, m: Message, i: nat)
    requires i < |m.content| && m.content[i].ToolUse?
    ensures var calls := ToOpenAI(cx, m).choices[0].message.value.toolCalls;
            var b, k := m.content[i], UseCount(m.content[..i]);
            calls.Some? && |calls.value| == UseCount(m.content) && k < |calls.value|
            && calls.value[k]
               == ToolCall(Some(b.id), Some("function"), Some(k % 0x1_0000_0000), b.name, cx.render(b.input))
  {
    CallsKeepOrder(cx, m.content, 0, i);
  }

  // ---------- field by field ----------

  /** The finish reason a stop reason becomes; an unknown one stays. */
  ghost predicate FinishesAs(stop: Option<string>, finish: Option<string>) {
    (finish == None <==> stop == None)
    && (finish == Some("stop") <==> stop in {Some("end_turn"), Some("stop_sequence"), Some("stop")})
    && (finish == Some("length") <==> stop in {Some("max_tokens"), Some("length")})
    && (finish == Some("tool_calls") <==> stop in {Some("tool_use"), Some("tool_calls")})
    && (finish !in {Some("stop"), Some("length"), Some("tool_calls")} ==> finish == stop)
  }

  /** The stop reason a finish reason becomes; an unknown one stays. */
  ghost predicate StopsAs(finish: Option<string>, stop: Option<string>) {
    (stop == None <==> finish == None)
    && (stop == Some("end_turn") <==> finish in {Some("stop"), Some("end_turn")})
    && (stop == Some("max_tokens") <==> finish in {Some("length"), Some("max_tokens")})
    && (stop == Some("tool_use") <==> finish in {Some("tool_calls"), Some("tool_use")})
    && (stop !in {Some("end_turn"), Some("max_tokens"), Some("tool_use")} ==> stop == finish)
  }

  /** What the OpenAI response of any message holds, apart from its tool calls. */
  lemma OpenAIFields(cx: Codec, m: Message)
    ensures var r := ToOpenAI(cx, m);
            r.id == m.id && r.model == m.model && r.object_ == "chat.completion" && r.created == 0 && r.timings == None
            && |r.choices| == 1 && r.choices[0].index == 0 && r.choices[0].delta == None && r.choices[0].message.Some?
            && FinishesAs(m.stopReason, r.choices[0].finishReason)
            && r.usage == Some(Usage(m.inputTokens, m.outputTokens,
                                     (m.inputTokens + m.outputTokens) % 0x1_0000_0000_0000_0000, None))
    ensures var message, said, thought := ToOpenAI(cx, m).choices[0].message.value, TextParts(m.content), ReasoningParts(m.content);
            message.role == m.role && message.reasoningOpaque == FirstSignature(m.content)
            && message.content == (if said == [] then None else Some(Join(said)))
            && message.reasoningText == (if thought == [] then None else Some(Join(thought)))
            && (message.toolCalls == None <==> forall k :: 0 <= k < |m.content| ==> !m.content[k].ToolUse?)
  {
    hide TextParts, ReasoningParts, FirstSignature, Calls, Join;
    CallsKeepOrder(cx, m.content, 0, 0);
    NoUseCount(m.content);
  }

  lemma {:induction false} NoUseCount(bs: seq<Block>)
    ensures UseCount(bs) == 0 <==> forall k :: 0 <= k < |bs| ==> !bs[k].ToolUse?
    decreases |bs|
  {
    if bs != [] {
      NoUseCount(bs[1..]);
      assert forall k :: 1 <= k < |bs| ==> bs[k] == bs[1..][k - 1];
    }
  }

  /** What the Anthropic message of any response holds: of its first choice, and where
      that, its message or the usage is missing, one empty text, no reason, no tokens. */
  lemma AnthropicFields(cx: Codec, r: Completion)
    ensures var m := ToAnthropic(cx, r);
            m.id == r.id && m.model == r.model && m.messageType == "message" && m.role == "assistant" && m.stopSequence == None
            && m.inputTokens == (if r.usage.Some? then r.usage.value.promptTokens else 0)
            && m.outputTokens == (if r.usage.Some? then r.usage.value.completionTokens else 0)
            && (r.choices == [] ==> m.stopReason == None && m.content == [Text("")])
            && (r.choices != [] ==> StopsAs(r.choices[0].finishReason, m.stopReason))
            && (r.choices != [] && r.choices[0].message == None ==> m.content == [Text("")])
  {
    hide BlocksOf;
  }

  /** The blocks of a message: its reasoning, its text unless empty, a tool use for each
      tool call; one empty text when there is none of these. */
  lemma ContentIs(cx: Codec, r: Completion)
    requires r.choices != [] && r.choices[0].message.Some?
    ensures var msg, bs := r.choices[0].message.value, ToAnthropic(cx, r).content;
            var thinks := msg.reasoningText.Some?;
            var says := msg.content.Some? && msg.content.value != "";
            var calls := if msg.toolCalls.Some? then msg.toolCalls.value else [];
            var first := (if thinks then 1 else 0) + if says then 1 else 0;
            if !thinks && !says && calls == [] then bs == [Text("")]
            else
              |bs| == first + |calls|
              && (thinks ==> bs[0] == Thinking(msg.reasoningText.value, None))
              && (says ==> bs[first - 1] == Text(msg.content.value))
              && forall k :: 0 <= k < |calls| ==>
                   bs[first + k].ToolUse? && bs[first + k].name == calls[k].name
                   && bs[first + k].id == (if calls[k].id.Some? then calls[k].id.value else cx.newId(k))
                   && bs[first + k].input
                      == (if cx.parse(calls[k].arguments).Some? then cx.parse(calls[k].arguments).value else Obj(map[]))
  {
    hide Uses;
  }

  /** What any message is after a trip through the OpenAI format. */
  lemma ReturnedMessage(cx: Codec, m: Message)
    ensures var m' := ToAnthropic(cx, ToOpenAI(cx, m));
            m'.id == m.id && m'.model == m.model && m'.messageType == "message" && m'.role == "assistant"
            && m'.stopSequence == None && m'.inputTokens == m.inputTokens && m'.outputTokens == m.outputTokens
            && (m'.stopReason == None <==> m.stopReason == None)
            && (m'.stopReason == Some("end_turn") <==> m.stopReason in {Some("end_turn"), Some("stop_sequence"), Some("stop")})
            && (m'.stopReason == Some("max_tokens") <==> m.stopReason in {Some("max_tokens"), Some("length")})
            && (m'.stopReason == Some("tool_use") <==> m.stopReason in {Some("tool_use"), Some("tool_calls")})
            && (m'.stopReason !in {Some("end_turn"), Some("max_tokens"), Some("tool_use")} ==> m'.stopReason == m.stopReason)
  {
    hide ToOpenAI, ToAnthropic;
    OpenAIFields(cx, m);
    AnthropicFields(cx, ToOpenAI(cx, m));
  }

  // ---------- main results, Anthropic side ----------

  lemma FinishAndStop(stop: string)
    ensures StopOf(FinishOf(stop)) == stop
       <==> stop !in ["stop_sequence", "stop", "length", "tool_calls"]
  {}

  ghost predicate NormalMessage(m: Message) {
    m.messageType == "message" && m.role == "assistant" && m.stopSequence.None? && NormalBlocks(m.content)
    && m.stopReason !in [Some("stop_sequence"), Some("stop"), Some("length"), Some("tool_calls")]
  }

  /** A message survives the trip through the OpenAI format exactly when it is normal
      and the inputs of its tool uses are what their texts are read back as. */
  lemma MessageReturnsIffNormal(cx: Codec, m: Message)
    ensures ToAnthropic(cx, ToOpenAI(cx, m)) == m <==> NormalMessage(m) && InputsReturn(cx, m.content)
  {
    hide BlocksOf, NormalBlocks, InputsReturn;
    var m' := ToAnthropic(cx, ToOpenAI(cx, m));
    ContentIsNormal(cx, ToOpenAI(cx, m));
    if NormalBlocks(m.content) {
      NormalBlocksReturn(cx, m);
    }
    if m.stopReason.Some? {
      FinishAndStop(m.stopReason.value);
    }
  }

  function CallsOf(r: Completion): seq<ToolCall> {
    if r.choices == [] || r.choices[0].message.None? || r.choices[0].message.value.toolCalls.None? then []
    else r.choices[0].message.value.toolCalls.value
  }

  lemma UsesSettle(cx: Codec, r: Completion)
    requires Settles(cx)
    ensures InputsSettle(cx, ToAnthropic(cx, r).content)
  {
    hide Settles, UseOf;
    var bs, cs := ToAnthropic(cx, r).content, CallsOf(r);
    forall k | 0 <= k < |bs| && bs[k].ToolUse?
      ensures cx.parse(cx.render(bs[k].input)) == Some(bs[k].input)
    {
      UseIsOfCall(cx, r, k);
      UseSettles(cx, cs[k + |cs| - |bs|], k + |cs| - |bs|);
    }
  }

  /** The tool uses stand at the end, one for each call. */
  lemma UseIsOfCall(cx: Codec, r: Completion, k: nat)
    requires k < |ToAnthropic(cx, r).content| && ToAnthropic(cx, r).content[k].ToolUse?
    ensures var bs, cs := ToAnthropic(cx, r).content, CallsOf(r);
            var j := k + |cs| - |bs|;
            0 <= j < |cs| && bs[k] == UseOf(cx, cs[j], j)
  {
    hide Uses, UseOf;
    if r.choices != [] && r.choices[0].message.Some? {
      UseIsLate(cx, r.choices[0].message.value, k);
    }
  }

  lemma UseIsLate(cx: Codec, m: ResponseMessage, k: nat)
    requires k < |BlocksOf(cx, m)| && BlocksOf(cx, m)[k].ToolUse?
    ensures var bs, cs := BlocksOf(cx, m), if m.toolCalls.Some? then m.toolCalls.value else [];
            var j := k + |cs| - |bs|;
            0 <= j < |cs| && bs[k] == UseOf(cx, cs[j], j)
  {
    hide Uses, UseOf;
  }

  lemma UseSettles(cx: Codec, c: ToolCall, k: nat)
    requires Settles(cx)
    ensures var input := UseOf(cx, c, k).input; cx.parse(cx.render(input)) == Some(input)
  {}

  /** Converting a response to Anthropic, back and again changes nothing more,
      exactly when its finish reason is not `stop_sequence`. */
  lemma ConversionStabilises(cx: Codec, r: Completion)
    requires Settles(cx)
    ensures var m := ToAnthropic(cx, r);
            ToAnthropic(cx, ToOpenAI(cx, m)) == m <==> FirstFinish(r) != Some("stop_sequence")
  {
    hide BlocksOf, NormalBlocks, InputsSettle, InputsReturn, Settles, ToOpenAI;
    var m := ToAnthropic(cx, r);
    UsesSettle(cx, r);
    SettledReturn(cx, m.content);
    ContentIsNormal(cx, r);
    MessageReturnsIffNormal(cx, m);
    assert m.stopReason == MapOption(StopOf, FirstFinish(r));
  }

  /** Through the Anthropic format and back the tool calls keep their number, order,
      names and what their arguments stand for, and their ids where they had one. */
  lemma ToolCallsSurvive(cx: Codec, r: Completion)
    requires Settles(cx)
    ensures var cs, cs' := CallsOf(r), CallsOf(ToOpenAI(cx, ToAnthropic(cx, r)));
            |cs'| == |cs| && forall k :: 0 <= k < |cs| ==> Survives(cx, cs[k], cs'[k], k)
  {
    hide Uses, Calls, BlocksOf, Settles, CallOf, UseOf;
    var cs, bs := CallsOf(r), ToAnthropic(cx, r).content;
    CallsComeFromUses(cx, r);
    UsesAreUses(cx, cs);
    OnlyUses(cx, Uses(cx, cs, 0), 0);
    CallsOfReturned(cx, ToAnthropic(cx, r));
    forall k | 0 <= k < |cs| ensures Survives(cx, cs[k], CallOf(cx, UseOf(cx, cs[k], k), k), k) {
      CallSurvives(cx, cs[k], k);
    }
  }

  ghost predicate Survives(cx: Codec, c: ToolCall, c': ToolCall, k: nat) {
    c'.name == c.name && c'.callType == Some("function") && c'.index == Some(k % 0x1_0000_0000)
    && c'.id == Some(match c.id case Some(id) => id case None => cx.newId(k))
    && cx.parse(c'.arguments) == Some(if cx.parse(c.arguments).Some? then cx.parse(c.arguments).value else Obj(map[]))
  }

  lemma CallSurvives(cx: Codec, c: ToolCall, k: nat)
    requires Settles(cx)
    ensures Survives(cx, c, CallOf(cx, UseOf(cx, c, k), k), k)
  {
    hide Settles;
    UseSettles(cx, c, k);
  }

  lemma UsesAreUses(cx: Codec, cs: seq<ToolCall>)
    ensures forall k :: 0 <= k < |cs| ==> Uses(cx, cs, 0)[k].ToolUse?
  {
    hide Uses;
  }

  lemma CallsOfReturned(cx: Codec, m: Message)
    ensures CallsOf(ToOpenAI(cx, m)) == Calls(cx, m.content, 0)
  {
    hide Calls;
  }

  lemma CallsComeFromUses(cx: Codec, r: Completion)
    ensures Calls(cx, ToAnthropic(cx, r).content, 0) == Calls(cx, Uses(cx, CallsOf(r), 0), 0)
  {
    hide Uses, Calls;
    var bs, us := ToAnthropic(cx, r).content, Uses(cx, CallsOf(r), 0);
    ContentIsNormal(cx, r);
    if bs == [Text("")] {
      EmptyTextParts(cx);
      NoBlocks(cx, 0);
    } else {
      NormalParts(cx, bs);
      assert bs[UsesFrom(bs)..] == us;
    }
  }

  // ---------- main results, OpenAI side ----------

  /** A tool call as the conversion from Anthropic writes it at place `k`. */
  ghost predicate NormalCall(cx: Codec, c: ToolCall, k: nat) {
    c.id.Some? && c.callType == Some("function") && c.index == Some(k % 0x1_0000_0000)
    && cx.parse(c.arguments).Some? && cx.render(cx.parse(c.arguments).value) == c.arguments
  }

  ghost predicate NormalResponse(cx: Codec, m: ResponseMessage) {
    m.role == "assistant" && m.reasoningOpaque.None?
    && (m.toolCalls.Some? ==>
          m.toolCalls.value != []
          && forall k :: 0 <= k < |m.toolCalls.value| ==> NormalCall(cx, m.toolCalls.value[k], k))
    && (m.content.None? ==> m.reasoningText.Some? || m.toolCalls.Some?)
    && (m.content == Some("") ==> m.reasoningText.None? && m.toolCalls.None?)
  }

  ghost predicate NormalCompletion(cx: Codec, r: Completion) {
    r.object_ == "chat.completion" && r.created == 0 && r.timings.None?
    && |r.choices| == 1 && r.choices[0].index == 0 && r.choices[0].delta.None?
    && r.choices[0].message.Some? && NormalResponse(cx, r.choices[0].message.value)
    && r.choices[0].finishReason !in [Some("end_turn"), Some("max_tokens"), Some("tool_use"), Some("stop_sequence")]
    && r.usage.Some? && r.usage.value.details.None?
    && r.usage.value.totalTokens == (r.usage.value.promptTokens + r.usage.value.completionTokens) % U64
  }

  lemma CallsInvertUses(cx: Codec, cs: seq<ToolCall>)
    requires forall k :: 0 <= k < |cs| ==> NormalCall(cx, cs[k], k)
    ensures Calls(cx, Uses(cx, cs, 0), 0) == cs
  {
    OnlyUses(cx, Uses(cx, cs, 0), 0);
  }

  /** The message that comes back out of normal blocks. */
  ghost function MessageOf(cx: Codec, bs: seq<Block>): ResponseMessage {
    var calls := Calls(cx, bs, 0);
    ResponseMessage(
      "assistant", JoinOption(TextParts(bs)), if calls == [] then None else Some(calls),
      JoinOption(ReasoningParts(bs)), FirstSignature(bs))
  }

  lemma MoreThanAnEmptyText(cx: Codec, m: ResponseMessage)
    requires NormalResponse(cx, m) && m.content != Some("")
    ensures BlocksOf(cx, m) != [Text("")]
  {
    hide Uses, NormalCall;
    var bs := BlocksOf(cx, m);
    if m.reasoningText.Some? {
      assert bs[0] == Thinking(m.reasoningText.value, None);
    } else if m.content.Some? {
      assert bs[0] == Text(m.content.value);
    } else {
      assert bs[0] == UseOf(cx, m.toolCalls.value[0], 0);
    }
  }

  lemma NormalResponseReturns(cx: Codec, m: ResponseMessage)
    requires NormalResponse(cx, m)
    ensures MessageOf(cx, BlocksOf(cx, m)) == m
  {
    hide Uses, TextParts, ReasoningParts, FirstSignature, Calls, NormalCall;
    var cs := match m.toolCalls case Some(cs) => cs case None => [];
    var bs := BlocksOf(cx, m);
    if m.content == Some("") {
      EmptyTextParts(cx);
    } else {
      BlocksAreNormal(cx, m);
      CallsInvertUses(cx, cs);
      MoreThanAnEmptyText(cx, m);
      NormalParts(cx, bs);
      assert bs[UsesFrom(bs)..] == Uses(cx, cs, 0);
    }
  }

  lemma ReturnedResponseIsNormal(cx: Codec, bs: seq<Block>)
    requires NormalBlocks(bs) && InputsSettle(cx, bs)
    ensures NormalResponse(cx, MessageOf(cx, bs))
  {
    hide Uses, TextParts, ReasoningParts, FirstSignature, Calls;
    if bs == [Text("")] {
      EmptyTextParts(cx);
    } else {
      var t := UsesFrom(bs);
      NormalParts(cx, bs);
      SettleTail(cx, bs, t);
      OnlyUses(cx, bs[t..], 0);
    }
  }

  lemma StopAndFinish(finish: string)
    ensures FinishOf(StopOf(finish)) !in ["end_turn", "max_tokens", "tool_use", "stop_sequence"]
    ensures FinishOf(StopOf(finish)) == finish
       <==> finish !in ["end_turn", "max_tokens", "tool_use", "stop_sequence"]
  {}

  /** What a completion becomes on its way through the Anthropic format. */
  lemma ReturnedCompletion(cx: Codec, r: Completion)
    ensures var r' := ToOpenAI(cx, ToAnthropic(cx, r));
            r'.choices == [Choice(0, Some(MessageOf(cx, ToAnthropic(cx, r).content)), None,
                                  MapOption(FinishOf, MapOption(StopOf, FirstFinish(r))))]
  {}

  /** A completion survives the trip through the Anthropic format exactly when it is
      normal: one choice, no reasoning signature, text unless something else is
      there, and tool calls with ids, numbered from 0, with settled arguments. */
  lemma CompletionReturnsIffNormal(cx: Codec, r: Completion)
    requires Settles(cx)
    ensures ToOpenAI(cx, ToAnthropic(cx, r)) == r <==> NormalCompletion(cx, r)
  {
    hide BlocksOf, NormalBlocks, InputsSettle, Settles, NormalResponse, MessageOf;
    var m := ToAnthropic(cx, r);
    UsesSettle(cx, r);
    ContentIsNormal(cx, r);
    ReturnedCompletion(cx, r);
    ReturnedResponseIsNormal(cx, m.content);
    if FirstFinish(r).Some? {
      StopAndFinish(FirstFinish(r).value);
    }
    if NormalCompletion(cx, r) {
      NormalResponseReturns(cx, r.choices[0].message.value);
      assert r.choices == [r.choices[0]];
    }
  }
}
