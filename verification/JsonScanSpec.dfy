/** What the structural scanner of llama-proxy/src/fixes/json_scan.rs computes,
    as functions of the text. The four walkers of the source are all read off one
    `Walk`: the complete depth-1 entries from a position, and how that list ends. */
module JsonScanSpec {
  import opened Options
  import opened JsonBytes

  /** A scanned string token with its quotes. */
  type Token = t: Bytes | |t| >= 2 witness [QUOTE, QUOTE]

  /** Byte spans of one depth-1 entry: the key with its quotes, the whole value. */
  datatype KeySpan = KeySpan(keyStart: nat, keyEnd: nat, valueStart: nat, valueEnd: nat)

  datatype Entry = Entry(token: Token, span: KeySpan)

  datatype Ending = Closed(at: nat) | Broken

  datatype Trail = Trail(entries: seq<Entry>, end: Ending)

  /** Decoding of a token that holds a backslash; None is a decode error. */
  type Decoder = Bytes -> Option<Bytes>

  // ---------- tokens ----------

  function SkipWs(b: Bytes, i: nat): (r: nat)
    ensures i <= r && (r > i ==> r <= |b|)
    decreases |b| - i
  {
    if i < |b| && IsWs(b[i]) then SkipWs(b, i + 1) else i
  }

  /** Just past the closing quote, scanning from `j` inside a string token. */
  function StringEnd(b: Bytes, j: nat): (r: Option<nat>)
    ensures r.Some? ==> j < r.value <= |b| && b[r.value - 1] == QUOTE
    decreases |b| - j
  {
    if j >= |b| then None
    else if b[j] == BACKSLASH then StringEnd(b, j + 2)
    else if b[j] == QUOTE then Some(j + 1)
    else if b[j] < 0x20 then None
    else StringEnd(b, j + 1)
  }

  function ScanString(b: Bytes, i: nat): (r: Option<nat>)
    ensures r.Some? ==> i + 2 <= r.value <= |b| && b[r.value - 1] == QUOTE
  {
    StringEnd(b, i + 1)
  }

  function DepthStep(c: byte): int {
    if IsOpener(c) then 1 else if IsCloser(c) then -1 else 0
  }

  /** Just past the bracket that brings `depth` unclosed brackets down to none. */
  function NestEnd(b: Bytes, j: nat, depth: int): (r: Option<nat>)
    ensures r.Some? ==> j < r.value <= |b|
    decreases |b| - j
  {
    if j >= |b| then None
    else if b[j] == QUOTE then
      match ScanString(b, j)
      case None => None
      case Some(k) => NestEnd(b, k, depth)
    else
      var d := depth + DepthStep(b[j]);
      if d == 0 then Some(j + 1)
      else if d < 0 then None
      else NestEnd(b, j + 1, d)
  }

  function LiteralEnd(b: Bytes, i: nat): (r: nat)
    ensures i <= r && (r > i ==> r <= |b|)
    decreases |b| - i
  {
    if i < |b| && !IsDelimiter(b[i]) then LiteralEnd(b, i + 1) else i
  }

  function ScanValue(b: Bytes, i: nat): (r: Option<nat>)
    ensures r.Some? ==> i <= r.value <= |b|
  {
    if i >= |b| then None
    else if b[i] == QUOTE then ScanString(b, i)
    else if IsOpener(b[i]) then NestEnd(b, i, 0)
    else Some(LiteralEnd(b, i))
  }

  // ---------- entries ----------

  /** The `"key" : value` entry whose key opens at `i`. */
  function ScanEntry(b: Bytes, i: nat): (r: Option<Entry>)
    ensures r.Some? ==> i < r.value.span.valueEnd <= |b|
  {
    if i >= |b| || b[i] != QUOTE then None
    else
      match ScanString(b, i)
      case None => None
      case Some(afterKey) =>
        var c := SkipWs(b, afterKey);
        if c >= |b| || b[c] != COLON then None
        else
          var v := SkipWs(b, c + 1);
          match ScanValue(b, v)
          case None => None
          case Some(end) => Some(Entry(b[i..afterKey], KeySpan(i, afterKey, v, end)))
  }

  /** `t` with an entry in front. */
  function Cons(e: Entry, t: Trail): Trail {
    Trail([e] + t.entries, t.end)
  }

  /** The entries from the one whose key opens at `i`. An entry counts as soon
      as its value scans, whatever follows it. */
  function Walk(b: Bytes, i: nat): Trail
    decreases |b| - i, 0
  {
    match ScanEntry(b, i)
    case None => Trail([], Broken)
    case Some(e) => Cons(e, WalkOn(b, e.span.valueEnd))
  }

  /** The entries of the `,"key":value` sequence from a position just past a value. */
  function WalkOn(b: Bytes, from: nat): Trail
    decreases |b| - from, 1
  {
    var k := SkipWs(b, from);
    if k >= |b| then Trail([], Broken)
    else if b[k] == COMMA then Walk(b, SkipWs(b, k + 1))
    else if b[k] == CLOSE_BRACE then Trail([], Closed(k))
    else Trail([], Broken)
  }

  /** The depth-1 entries of the object the text starts with. */
  function WalkRoot(b: Bytes): Trail {
    var i := SkipWs(b, 0);
    if i >= |b| || b[i] != OPEN_BRACE then Trail([], Broken)
    else
      var j := SkipWs(b, i + 1);
      if j >= |b| then Trail([], Broken)
      else if b[j] == CLOSE_BRACE then Trail([], Closed(j))
      else Walk(b, j)
  }

  // ---------- keys ----------

  /** A key token's text: raw between its quotes unless it holds a backslash. */
  function DecodeToken(dec: Decoder, token: Token): Option<Bytes> {
    var inner := token[1..|token| - 1];
    if BACKSLASH in inner then dec(token) else Some(inner)
  }

  predicate IsHit(dec: Decoder, e: Entry, key: Bytes) {
    DecodeToken(dec, e.token) == Some(key)
  }

  /** The keys up to the first one that does not decode. */
  function DecodedPrefix(dec: Decoder, es: seq<Entry>): (r: seq<Bytes>)
    ensures |r| <= |es|
  {
    if es == [] then []
    else
      match DecodeToken(dec, es[0].token)
      case None => []
      case Some(k) => [k] + DecodedPrefix(dec, es[1..])
  }

  function Hits(dec: Decoder, es: seq<Entry>, key: Bytes): seq<KeySpan> {
    if es == [] then []
    else (if IsHit(dec, es[0], key) then [es[0].span] else []) + Hits(dec, es[1..], key)
  }

  /** `scan_spans`: every entry of a closed object whose key reads `key`. */
  function SpansOf(dec: Decoder, t: Trail, key: Bytes): Option<seq<KeySpan>> {
    if t.end.Closed? then Some(Hits(dec, t.entries, key)) else None
  }

  /** `depth1_keys`: every key of a closed object, when all of them decode. */
  function KeysOf(dec: Decoder, t: Trail): Option<seq<Bytes>> {
    var ks := DecodedPrefix(dec, t.entries);
    if t.end.Closed? && |ks| == |t.entries| then Some(ks) else None
  }

  /** `top_level_key_spans`: a structural failure reads as no span. */
  function TopLevelSpans(dec: Decoder, b: Bytes, key: Bytes): seq<KeySpan> {
    match SpansOf(dec, WalkRoot(b), key)
    case None => []
    case Some(spans) => spans
  }

  /** `keys_after`: the keys proven from `from` on. */
  function KeysAfter(dec: Decoder, b: Bytes, from: nat): seq<Bytes> {
    DecodedPrefix(dec, WalkOn(b, from).entries)
  }

  // ---------- one entry at a time ----------

  lemma NoHits(dec: Decoder, key: Bytes)
    ensures Hits(dec, [], key) == []
  {}

  lemma NoKeys(dec: Decoder)
    ensures DecodedPrefix(dec, []) == []
  {}

  lemma HitsCons(dec: Decoder, e: Entry, es: seq<Entry>, key: Bytes)
    ensures Hits(dec, [e] + es, key)
         == (if IsHit(dec, e, key) then [e.span] else []) + Hits(dec, es, key)
  {
    assert ([e] + es)[1..] == es;
  }

  lemma DecodedCons(dec: Decoder, e: Entry, es: seq<Entry>)
    ensures DecodedPrefix(dec, [e] + es)
         == match DecodeToken(dec, e.token) case None => [] case Some(k) => [k] + DecodedPrefix(dec, es)
  {
    assert ([e] + es)[1..] == es;
  }

  // ---------- the parts of an entry ----------

  lemma EntryHasKey(b: Bytes, i: nat)
    requires ScanEntry(b, i).Some?
    ensures i < |b| && b[i] == QUOTE && ScanString(b, i).Some?
  {
    hide ScanValue, ScanString, SkipWs;
  }

  lemma EntryHasColon(b: Bytes, i: nat)
    requires ScanEntry(b, i).Some? && ScanString(b, i).Some?
    ensures var c := SkipWs(b, ScanString(b, i).value); c < |b| && b[c] == COLON
  {
    hide ScanValue, ScanString, SkipWs;
  }

  lemma EntryHasValue(b: Bytes, i: nat)
    requires ScanEntry(b, i).Some? && ScanString(b, i).Some?
    ensures ScanValue(b, SkipWs(b, SkipWs(b, ScanString(b, i).value) + 1)).Some?
  {
    hide ScanValue, ScanString, SkipWs;
  }

  /** What keeps a text from having an entry at `i`. */
  ghost predicate LacksEntry(b: Bytes, i: nat) {
    i >= |b| || b[i] != QUOTE || ScanString(b, i).None?
    || var c := SkipWs(b, ScanString(b, i).value);
       c >= |b| || b[c] != COLON || ScanValue(b, SkipWs(b, c + 1)).None?
  }

  lemma NoEntry(b: Bytes, i: nat)
    requires LacksEntry(b, i)
    ensures ScanEntry(b, i).None?
  {
    hide ScanValue, ScanString, SkipWs;
  }

  /** An entry from its parts. */
  lemma EntryFrom(b: Bytes, i: nat, a: nat, c: nat, v: nat, end: nat)
    requires i < |b| && b[i] == QUOTE && ScanString(b, i) == Some(a) && SkipWs(b, a) == c < |b| && b[c] == COLON
    requires SkipWs(b, c + 1) == v && ScanValue(b, v) == Some(end)
    ensures ScanEntry(b, i) == Some(Entry(b[i..a], KeySpan(i, a, v, end)))
  {
    hide ScanValue, ScanString, SkipWs;
  }

  /** The parts of an entry. */
  lemma EntryParts(b: Bytes, i: nat)
    requires ScanEntry(b, i).Some?
    ensures i < |b| && b[i] == QUOTE && ScanString(b, i).Some?
    ensures var a := ScanString(b, i).value;
            var c := SkipWs(b, a);
            i < a <= c < |b| && b[c] == COLON && c < SkipWs(b, c + 1) && ScanValue(b, SkipWs(b, c + 1)).Some?
            && var v := SkipWs(b, c + 1);
               ScanEntry(b, i).value == Entry(b[i..a], KeySpan(i, a, v, ScanValue(b, v).value))
  {
    hide ScanValue, ScanString, SkipWs, ScanEntry;
    EntryHasKey(b, i);
    EntryHasColon(b, i);
    EntryHasValue(b, i);
    var a := ScanString(b, i).value;
    var c := SkipWs(b, a);
    var v := SkipWs(b, c + 1);
    EntryFrom(b, i, a, c, v, ScanValue(b, v).value);
  }
}
