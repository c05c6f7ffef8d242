/** Anthropic content blocks on the wire (llama-proxy/src/api/openai.rs:375-512). */
module ContentBlocks {
  import opened Options
  import opened JsonValue
  import opened Conversion

  type Members = map<string, Json>

  function OptionalText(o: Option<string>): Json {
    match o case Some(s) => Str(s) case None => Null
  }

  function OptionalFlag(o: Option<bool>): Json {
    match o case Some(b) => Bool(b) case None => Null
  }

  /** The tagged object of a known block; any other block as it arrived. */
  function Serialize(b: Block): Json {
    match b
    case Text(text) => Obj(map["type" := Str("text"), "text" := Str(text)])
    case Thinking(thinking, signature) =>
      Obj(map["type" := Str("thinking"), "thinking" := Str(thinking), "signature" := OptionalText(signature)])
    case ToolUse(id, name, input) =>
      Obj(map["type" := Str("tool_use"), "id" := Str(id), "name" := Str(name), "input" := input])
    case ToolResult(id, content, isError) =>
      Obj(map["type" := Str("tool_result"), "tool_use_id" := Str(id), "content" := content,
              "is_error" := OptionalFlag(isError)])
    case Other(raw) => raw
  }

  /** A required string field. */
  function Required(m: Members, key: string): Option<string> {
    if key in m && m[key].Str? then Some(m[key].s) else None
  }

  /** A field that may be absent or null; no value at all when its type is wrong. */
  function Optional(m: Members, key: string): Option<Option<string>> {
    if key !in m || m[key].Null? then Some(None)
    else if m[key].Str? then Some(Some(m[key].s))
    else None
  }

  function OptionalBool(m: Members, key: string): Option<Option<bool>> {
    if key !in m || m[key].Null? then Some(None)
    else if m[key].Bool? then Some(Some(m[key].b))
    else None
  }

  /** The object as one of the four known shapes, else whole as `Other`. */
  function Deserialize(m: Members): Block {
    var other := Other(Obj(m));
    match Required(m, "type")
    case None => other
    case Some(tag) =>
      if tag == "text" then
        match Required(m, "text") case Some(t) => Text(t) case None => other
      else if tag == "thinking" then
        match (Required(m, "thinking"), Optional(m, "signature"))
        case (Some(t), Some(s)) => Thinking(t, s)
        case _ => other
      else if tag == "tool_use" then
        match (Required(m, "id"), Required(m, "name"))
        case (Some(i), Some(n)) => if "input" in m then ToolUse(i, n, m["input"]) else other
        case _ => other
      else if tag == "tool_result" then
        match (Required(m, "tool_use_id"), OptionalBool(m, "is_error"))
        case (Some(i), Some(e)) => if "content" in m then ToolResult(i, m["content"], e) else other
        case _ => other
      else other
  }

  // ---------- shapes ----------

  predicate HasText(m: Members, key: string) {
    key in m && m[key].Str?
  }

  predicate MayHaveText(m: Members, key: string) {
    key !in m || m[key].Null? || m[key].Str?
  }

  predicate MayHaveFlag(m: Members, key: string) {
    key !in m || m[key].Null? || m[key].Bool?
  }

  /** The fields a known `type` stands for; none for any other. */
  function Fields(tag: string): set<string> {
    if tag == "text" then {"type", "text"}
    else if tag == "thinking" then {"type", "thinking", "signature"}
    else if tag == "tool_use" then {"type", "id", "name", "input"}
    else if tag == "tool_result" then {"type", "tool_use_id", "content", "is_error"}
    else {}
  }

  /** A known `type` whose fields all have a type that fits it. */
  predicate IsKnown(m: Members) {
    HasText(m, "type")
    && var tag := m["type"].s;
       (tag == "text" && HasText(m, "text"))
       || (tag == "thinking" && HasText(m, "thinking") && MayHaveText(m, "signature"))
       || (tag == "tool_use" && HasText(m, "id") && HasText(m, "name") && "input" in m)
       || (tag == "tool_result" && HasText(m, "tool_use_id") && "content" in m && MayHaveFlag(m, "is_error"))
  }

  // ---------- the four known shapes ----------

  /** Each field of a known shape is read into its own place. */
  lemma KnownBlocksAreRead(s: string, t: string, v: Json, sig: Option<string>, err: Option<bool>)
    ensures Deserialize(map["type" := Str("text"), "text" := Str(t)]) == Text(t)
    ensures Deserialize(map["type" := Str("thinking"), "thinking" := Str(t),
                            "signature" := if sig.Some? then Str(sig.value) else Null]) == Thinking(t, sig)
    ensures Deserialize(map["type" := Str("thinking"), "thinking" := Str(t)]) == Thinking(t, None)
    ensures Deserialize(map["type" := Str("tool_use"), "id" := Str(s), "name" := Str(t), "input" := v]) == ToolUse(s, t, v)
    ensures Deserialize(map["type" := Str("tool_result"), "tool_use_id" := Str(s), "content" := v,
                            "is_error" := if err.Some? then Bool(err.value) else Null]) == ToolResult(s, v, err)
    ensures Deserialize(map["type" := Str("tool_result"), "tool_use_id" := Str(s), "content" := v])
         == ToolResult(s, v, None)
  {}

  // ---------- round trips ----------

  /** A block read back from its own text is that block, except a raw block that
      would have been read as a known one. */
  lemma SerializedReadsBack(b: Block)
    requires b.Other? ==> b.raw.Obj?
    ensures Serialize(b).Obj?
    ensures Deserialize(Serialize(b).members) == b <==> (b.Other? ==> !IsKnown(b.raw.members))
  {}

  /** An object is passed on as it came exactly when it is no known shape or holds
      just that shape's fields: fields beside them are dropped and an absent
      optional field turns into null. */
  lemma PassedOnVerbatimIff(m: Members)
    ensures Serialize(Deserialize(m)) == Obj(m) <==> !IsKnown(m) || m.Keys == Fields(m["type"].s)
  {}

  /** What a known block becomes: every field of its shape, null where it was absent. */
  lemma KnownIsTagged(m: Members)
    requires IsKnown(m)
    ensures var out := Serialize(Deserialize(m));
            out.Obj? && out.members.Keys == Fields(m["type"].s)
            && forall k :: k in out.members ==> out.members[k] == if k in m then m[k] else Null
  {}

  /** One pass through the proxy is all it takes: a second changes nothing. */
  lemma SecondPassIsIdentity(m: Members)
    ensures Serialize(Deserialize(m)).Obj?
    ensures Deserialize(Serialize(Deserialize(m)).members) == Deserialize(m)
  {}
}
