# Verified model of llama-proxy

`llama-proxy` sits between LLM clients and a set of llama.cpp or vLLM backends. This
project models the parts of it where a mistake would be silent, and proves what they
promise:

- **Choosing a backend.** `priority_free` is a lock-free selection: a compare-and-swap
  pass over idle nodes, a pass that reserves every usable node and gives all but the
  least loaded back, and a fallback when every node is in cooldown. `SelectProtocol`
  is the transition system: one step for each atomic operation or health check of any
  number of threads, with cloned and dropped guards and health changes in between.
  `SelectProtocolProofs` proves its invariants over all runs; `SelectProtocolSolo`
  proves that an undisturbed select meets the sequential promise of `SelectSpec`,
  `SelectProtocolVisits` what an interleaved one still meets, and `SelectProtocolRace`
  is a run in which it does not;
  `PriorityFree` is the same algorithm as loops over mutable nodes, proved against the
  same promise. `Backends` holds the node and its cooldown, `RoundRobin` the rotation,
  `Routing` the model groups and the validation of their configuration.
- **Scanning JSON without parsing it.** The argument fixer needs byte offsets of
  repeated keys. `JsonScan` holds the loops, proved equal to the recursive functions of
  `JsonScanSpec`, and `JsonLenient` says on every byte string what these accept.
  `JsonGrammar` is the grammar of RFC 8259 (sections 2 to 7) as a
  tree that carries its own whitespace and escapes, with its printer.
  `JsonScanGrammar` and `JsonDocuments` prove that the scanner inverts the printer,
  `JsonObjects` the converse: which texts start with an object, told from what the
  scanner finds in them, and what that means for counting keys,
  `JsonWalkers` that the walkers agree with each other on every byte string and how
  they behave on truncated text and multibyte characters (section 3 of RFC 3629),
  `JsonRebuild` that cutting by spans leaves the same object with only the first entry
  of a repeated key.
- **Rewriting messages.** `Conversion` (OpenAI and Anthropic responses, both ways),
  `ContentBlocks` (content blocks on the wire), `Augment` (injecting text into a
  request and reading it back).
- **Shared state around them.** `PromptCache` (a file cache keyed by modification
  time, and the map that shares caches), `FixRegistry` (the fix pipeline and its two
  ways to honour a configuration), `ModelLength` (the context length picked from a
  model listing).

Code that loops over mutable state in the program is a method with a loop or a class
here, and its contract ties it to a specification whose properties are proved as lemmas.

## Promises that hold only in part

- `llama-proxy/src/fixes/json_scan.rs:10-12` says that the stream count and the spans
  agree on every valid input and on structurally malformed input. Neither holds:
  `{"\uD800":1,"f":2}` is valid, has one span for `f` and counts 0, because the first key
  decodes to no text (`JsonObjects.LoneSurrogateHidesTheCount`); `{"f":}` and `{"f":-}`
  are malformed, count 0 and have one (`JsonObjects.MalformedTextHasASpan`,
  `JsonObjects.RejectedLiteralHasASpan`). `JsonObjects.CountAgreesWithSpans` says for
  every text whether they agree.
- `llama-proxy/src/fixes/json_scan.rs:84-86` says that only well-formed documents get a
  key list. `{"f":}` gets one, and so does an object with anything behind it;
  `JsonObjects.KeyListMeansObject` and `JsonObjects.IsObjectTextIff` say which texts
  with a key list are well-formed.
- `llama-proxy/src/backends/priority_free.rs:3-4` says that a request always goes to the
  lowest backend that is not handling one. That holds for every select that no other
  interrupts (`SelectProtocolSolo.LoneSelectIsPriorityFree`). Overlapping selects take
  each other's reservations for requests, and two may end on one node beside an idle one
  (`SelectProtocolRace.BusyNodeChosenOverIdle`); what they keep in every interleaving is
  `SelectProtocolVisits.EveryClaimIsJustified`.
- Round robin is even over any n selects in a row except across the wrap of its counter
  (`RoundRobin.RoundRobinIsEvenIff`).
- The global `fixes.enabled` switch acts on one of the two ways to honour the
  configuration only (`FixRegistry.BothWaysAgreeIff`).
- The prompt cache promises never to serve stale text while modification times move.
  That holds in every run of one refresher, or of several that do not overlap; with two
  that overlap it fails (`PromptCache.CurrentExactlyForOneRefresher`).
- A content block of a known type loses the fields that its shape does not list, while
  a block of an unknown type keeps all of its fields
  (`ContentBlocks.PassedOnVerbatimIff`).

## Model

| member | source | states |
|---|---|---|
| SelectProtocolProofs.StepKeepsInv | llama-proxy/src/backends/priority_free.rs:46-110 | Every atomic step of every thread (selects, guard clones and drops, health flips) keeps each counter equal to its claims and reservations, at most one CAS claim a node, and every thread's best the first least load it reserved |
| SelectProtocolProofs.RunKeepsInv | llama-proxy/src/backends/priority_free.rs:46-110 | The invariant holds at the end of any interleaving of any length |
| SelectProtocolProofs.ReachableCountersAreHolders | llama-proxy/src/backends/priority_free.rs:68-78 | In every state reachable from counters at 0: a counter is the live claims on its node plus the reservations of selects under way; it is 0 only when there are none; at most one live claim came from the CAS pass |
| SelectProtocolProofs.EverySelectMakesOneClaim | llama-proxy/src/backends/priority_free.rs:71-76 | Over any run, the claims a thread has made are exactly the selects it started, but for the one it is in |
| SelectProtocolProofs.RoomFromTheStart | llama-proxy/src/backends/priority_free.rs:68-78 | With fewer than `usize::MAX` selects started in all, no interleaving brings a node to `usize::MAX` holders: the assumption of the counter results holds |
| SelectProtocolProofs.CountersReturnToZero | llama-proxy/src/backends/balancer.rs:9-30 | With no select under way and every guard gone, every counter is back at 0 |
| SelectProtocolProofs.CasFindsNobody | llama-proxy/src/backends/priority_free.rs:49-66 | A compare-and-swap that succeeds finds neither a live claim nor a reservation on its node |
| SelectProtocolProofs.DropFindsPositive | llama-proxy/src/backends/balancer.rs:19-30 | The subtraction at a last drop finds a positive counter, so the saturating branch never runs |
| SelectProtocolProofs.DropSaturates | llama-proxy/src/backends/balancer.rs:23-28 | From a counter at 0 the two steps of that branch would leave 0, not a wrapped counter |
| SelectProtocol.FetchesWrap | llama-proxy/src/backends/balancer.rs:21-27 | Adding and subtracting one is modulo 2^64, so that without that branch 0 would wrap |
| SelectProtocolProofs.ReleaseFindsPositive | llama-proxy/src/backends/priority_free.rs:94-100 | Every subtraction that gives a losing reservation back finds a positive counter |
| SelectProtocolProofs.RunCountsRefs | llama-proxy/src/backends/balancer.rs:9-18 | Over any run, clones minus drops account for the guards of each claim, and its releases for its subtractions |
| SelectProtocolProofs.ReleasedOnceAtLastDrop | llama-proxy/src/backends/balancer.rs:9-30 | From the start, a claim's counter is subtracted from at most once, only after the first guard and every clone of it were dropped, and never while a guard is held |
| SelectProtocolProofs.WinnerHadLeastLoad | llama-proxy/src/backends/priority_free.rs:79-92 | Whatever other threads did meanwhile, the node kept is the first of the reserved ones with the least load found at arrival |
| SelectProtocolProofs.FallbackOnlyWithoutLoads | llama-proxy/src/backends/priority_free.rs:79-108 | The reserve pass ends in the fallback if and only if every load it found was `usize::MAX`; below that it then holds no reservation |
| SelectProtocolProofs.OwnStepDecreases | llama-proxy/src/backends/priority_free.rs:53-108 | Each step of a select lowers its own measure in any shared state |
| SelectProtocolProofs.SelectIsWaitFree | llama-proxy/src/backends/priority_free.rs:53-108 | In any run, with no assumption on counters or other threads, the steps a select takes are bounded by the measure it began with |
| SelectProtocolProofs.SelectBound | llama-proxy/src/backends/priority_free.rs:53-108 | That measure is 7 n + 4 over n nodes |
| SelectProtocolVisits.EveryClaimIsJustified | llama-proxy/src/backends/priority_free.rs:49-108 | Over every run with room: a select that claims in the first pass found every lower node excluded or held at its visit and its own node without holder; one past it found every node so, reserved exactly the nodes not found excluded on the second visit and keeps the first with the least load found; it falls back only if it found all excluded |
| SelectProtocolVisits.VisitsFindHolders | llama-proxy/src/backends/priority_free.rs:57-61 | What a visit finds in a counter is the number of claims and reservations on the node, and the compare-and-swap succeeds exactly when that is 0 |
| SelectProtocolRace.BusyNodeChosenOverIdle | llama-proxy/src/backends/priority_free.rs:3-4 | A run over two healthy nodes in which a select that starts with no live claim ends, and with it the one under way, on the same node, the other staying idle: the promise fails when selects overlap |
| SelectProtocolSolo.LoneSelectIsPriorityFree | llama-proxy/src/backends/priority_free.rs:46-110 | Every select that nothing interrupts, from any reachable state, claims the node the promise prescribes, raises its counter by one and no other |
| SelectSpec.PriorityFreeIsUnique | llama-proxy/src/backends/priority_free.rs:1-6 | The promise (lowest idle node; else lowest least-loaded; else lowest soonest to recover) admits one node only |
| PriorityFree.PriorityFreeBalancer.Select | llama-proxy/src/backends/priority_free.rs:46-110 | The loops choose exactly the promised node; its counter rises by one, every other stays, the fallback count rises only when all nodes are cooled |
| PriorityFree.PriorityFreeBalancer.ClaimFree | llama-proxy/src/backends/priority_free.rs:53-66 | Claims the first node neither cooled nor busy, or leaves everything as it was when there is none |
| PriorityFree.PriorityFreeBalancer.ReserveAll | llama-proxy/src/backends/priority_free.rs:79-92 | Raises the counters of exactly the nodes not cooled and keeps the first with the least load |
| PriorityFree.PriorityFreeBalancer.ReleaseLosers | llama-proxy/src/backends/priority_free.rs:94-100 | Lowers exactly the counters of the reserved nodes other than the winner, each by one |
| PriorityFree.PriorityFreeBalancer.ClaimReserved | llama-proxy/src/backends/priority_free.rs:79-102 | Reserve and release together change one counter, by one, on the least-loaded usable node; or nothing when all are cooled |
| PriorityFree.PriorityFreeBalancer.ClaimSoonest | llama-proxy/src/backends/priority_free.rs:103-108 | With every node cooled, serves the one whose window ends first and counts the fallback |
| Backends.SoonestRecovering | llama-proxy/src/backends/node.rs:181-191 | The earliest expiry, the lowest index among equals |
| Backends.LatestEventDecides | llama-proxy/src/backends/node.rs:68-108 | After any history of failures and successes a node is excluded at a time if and only if its latest event is a failure whose clamped window has not ended |
| Backends.ExpiryNeverOverflows | llama-proxy/src/backends/node.rs:72-91 | For every requested duration the window ends within the clock and never later than requested, and as requested exactly when the clock can hold that |
| Backends.ClampedExpiry | llama-proxy/src/backends/node.rs:75-88 | A window the clock cannot hold is a day long, and over at once where the clock cannot hold that either |
| SelectProtocolSolo.HealthEventSteps | llama-proxy/src/backends/node.rs:89-96 | In the protocol a failure is its window's end and then the flag, a success the flag, and nothing else of the node or the others moves |
| Backends.BackendNode.MarkFailed | llama-proxy/src/backends/node.rs:72-91 | Moves health and expiry as a failure event does, and nothing else |
| Backends.BackendNode.MarkHealthy | llama-proxy/src/backends/node.rs:93-96 | Moves health as a success event does, and nothing else |
| Backends.CandidateOrderIsPermutation | llama-proxy/src/backends/balancer.rs:63-83 | From any start the walk visits every index exactly once |
| RoundRobin.RoundRobinBalancer.Select | llama-proxy/src/backends/round_robin.rs:35-58 | Serves the first healthy node from the counter on, else the soonest to recover; one load and the wrapped counter move by one |
| RoundRobin.PickFindsHealthy | llama-proxy/src/backends/round_robin.rs:42-46 | The walk serves a node that is not cooled whenever there is one |
| RoundRobin.RoundRobinShare | llama-proxy/src/backends/round_robin.rs:35-58 | With fixed cooldowns n selects in a row serve a healthy node as often as its cyclic distance from the healthy node before it, so none starves, if the wrapping counter does not wrap among them or n divides its range |
| RoundRobin.ServedAcrossTheWrap | llama-proxy/src/backends/round_robin.rs:41-42 | Across the wrap, exactly by how much a node's share is off |
| RoundRobin.SelectInARow | llama-proxy/src/backends/round_robin.rs:35-58 | Calling Select any number of times under fixed cooldowns gives each node as often, and raises its load by as much, as the count the fairness results speak of |
| RoundRobin.RoundRobinIsEvenIff | llama-proxy/src/backends/round_robin.rs:35-46 | With no node cooled, n selects in a row serve every node exactly once if and only if the counter does not wrap among them or n divides its range |
| Routing.ValidateBackends | llama-proxy/src/config/loader.rs:86-145 | In every enumeration order of the group map the loop accepts if and only if the config meets a predicate that mentions no order |
| Routing.ClaimModels | llama-proxy/src/config/loader.rs:111-118 | The mapping loop fails if and only if a mapping is empty, repeated or owned by a group seen before |
| Routing.AcceptedIff | llama-proxy/src/config/loader.rs:95-143 | The rules of that predicate one by one: no two places hold the same model, one group at most has no mappings, and every group has a name, nodes, non-empty mappings and one of the two strategies |
| Routing.SortedExists | llama-proxy/src/backends/grouped.rs:50-51 | The groups of every map have an order by name |
| Routing.LessIsLexicographic | llama-proxy/src/backends/grouped.rs:51 | By name means: less at the first char that differs, or a proper prefix |
| Routing.SortedIsUnique | llama-proxy/src/backends/grouped.rs:50-51 | They have no second one, however the map was enumerated |
| Routing.FindGroup | llama-proxy/src/backends/grouped.rs:85-114 | The search returns the first group by name that maps the model, else the first that catches all, else the first non-exclusive one, and none exactly when there is none of these |
| Routing.RouteIs | llama-proxy/src/backends/grouped.rs:85-92 | The same said of the groups' mappings and flags: of those that hold the model the first by name; without one, of those without mappings; without one, of those not exclusive; else none |
| Routing.RouteIsUnique | llama-proxy/src/backends/grouped.rs:85-92 | The route is determined for every config, duplicate mappings and catch-alls included |
| Routing.OwnerIsUnique | llama-proxy/src/config/loader.rs:99-118 | In an accepted config one group at most maps a model and one at most catches all |
| Routing.RefusedOnlyWithoutFallback | llama-proxy/src/backends/grouped.rs:118-135 | A request is refused if and only if no group maps its model, none catches all and every group is exclusive |
| ModelLength.SelectMaxModelLen | llama-proxy/src/backends/preflight.rs:281-310 | The length of the entry with the longest matching id (the larger length among equals), else the largest length, else nothing |
| ModelLength.SelectedIs | llama-proxy/src/backends/preflight.rs:281-288 | The same said of the entries: one side a prefix of the other makes a match, the longest id wins, then the largest length; entries without an id or a length never count |
| ModelLength.OrderDoesNotMatter | llama-proxy/src/backends/preflight.rs:281-310 | Listings with the same entries in any order select the same length |
| JsonScan.ScanValue | llama-proxy/src/fixes/json_scan.rs:191-226 | The flat depth counter with its quote-skipping loop computes the recursive scan, on every byte string |
| JsonScan.ScanString | llama-proxy/src/fixes/json_scan.rs:176-187 | The escape-skipping loop computes the recursive scan the next row characterises, on every byte string |
| JsonLenient.ScanStringIff | llama-proxy/src/fixes/json_scan.rs:172-187 | On every byte string: from a quote the scanner ends at r if and only if the bytes up to r are quoted chars, each one byte of at least 0x20 that is neither quote nor backslash, or a backslash and any byte |
| JsonLenient.NestEndIff | llama-proxy/src/fixes/json_scan.rs:195-216 | On every byte string: from an opening bracket the counter ends at r if and only if the bytes up to r are such strings and other bytes whose brackets, of either kind, balance at the last byte and not before |
| JsonLenient.ScanValueIff | llama-proxy/src/fixes/json_scan.rs:189-226 | On every byte string: exactly what is taken for a value, the empty literal before a delimiter included, and that nothing else is |
| JsonLenient.ScanEntryIff | llama-proxy/src/fixes/json_scan.rs:140-163 | On every byte string: an entry is a quoted key, a colon and a value with only blanks between, and nothing else is one |
| JsonLenient.WalkOnIs | llama-proxy/src/fixes/json_scan.rs:103-136 | On every byte string: behind a value the walk goes on over a comma to an entry, closes at a brace, and breaks at anything else |
| JsonLenient.WalkRootIs | llama-proxy/src/fixes/json_scan.rs:228-240 | On every byte string: the walk starts behind an opening brace at its close or first entry, and does not start otherwise |
| JsonLenient.SkipWsIff | llama-proxy/src/fixes/json_scan.rs:165-170 | Exactly spaces, tabs, line feeds and carriage returns are skipped |
| JsonLenient.KeysAfterIff | llama-proxy/src/fixes/json_scan.rs:113-137 | On every byte string: the keys proven are those of the entries that follow, up to the first that does not decode |
| JsonLenient.DecodeTokenIs | llama-proxy/src/fixes/json_scan.rs:151-161 | A key without a backslash is its own bytes, whatever the decoder; one with a backslash is what the decoder makes of the quoted token |
| JsonScan.ScanEntry | llama-proxy/src/fixes/json_scan.rs:143-163 | An entry is reported, with its decoded key and its end, exactly when the recursive entry scan succeeds and the key decodes |
| JsonScan.ScanSpans | llama-proxy/src/fixes/json_scan.rs:228-273 | The accumulating loop lists the matching entries of the one walk all walkers share |
| JsonScan.Depth1Keys | llama-proxy/src/fixes/json_scan.rs:90-111 | The accumulating loop lists every key of that same walk, or fails where it breaks or a key does not decode |
| JsonScan.KeysAfter | llama-proxy/src/fixes/json_scan.rs:121-138 | The accumulating loop lists the keys of that walk from an offset up to its first failure |
| JsonScanGrammar.ScanStringInvertsPrint | llama-proxy/src/fixes/json_scan.rs:172-187 | On the text of any string token the scanner returns exactly its end |
| JsonScanGrammar.NestSkipsValue | llama-proxy/src/fixes/json_scan.rs:195-213 | At any depth the flat counter steps over the whole text of any value |
| JsonScanGrammar.ScanValueInvertsPrint | llama-proxy/src/fixes/json_scan.rs:189-226 | On the text of any value, with any whitespace and any nesting, followed by a delimiter or the end, the scanner returns exactly its end |
| JsonDocuments.ScanEntryInvertsPrint | llama-proxy/src/fixes/json_scan.rs:140-163 | On the text of any member the entry scan returns its key token and the exact places of key and value |
| JsonDocuments.WalkRootInvertsPrint | llama-proxy/src/fixes/json_scan.rs:228-273 | On any printed object, with anything before its brace blank and anything at all behind it, the walk lists exactly the members in order and closes at the object's own brace |
| JsonDocuments.EntriesSliceMembers | llama-proxy/src/fixes/json_scan.rs:30-40 | The slices of each entry are the texts of that member's key and value |
| JsonDocuments.SpansOfDocument | llama-proxy/src/fixes/json_scan.rs:76-82 | The spans are those of exactly the depth-1 members whose decoded key matches, in order |
| JsonDocuments.KeysOfDocument | llama-proxy/src/fixes/json_scan.rs:84-111 | The key list is the decoded key of every member, duplicates included, and fails exactly when one does not decode |
| JsonObjects.StartsWithObjectIff | llama-proxy/src/fixes/json_scan.rs:76-111 | On every byte string: it starts with an object of RFC 8259 if and only if the walk closes and every key slice and value slice found parses on its own |
| JsonObjects.IsObjectTextIff | llama-proxy/src/fixes/json_scan.rs:84-89 | It is such an object and nothing else if and only if moreover only blanks follow where the walk closes |
| JsonGrammar.NamesAndEscapes | llama-proxy/src/fixes/json_scan.rs:10-12 | Valid means by RFC 8259: its three names, the chars that may follow a backslash, its hex digits, and what may stand unescaped |
| JsonObjects.KeyListMeansObject | llama-proxy/src/fixes/json_scan.rs:84-89 | A text that starts with an object gets a key list exactly when its keys decode; a text with a key list starts with an object exactly when every slice parses |
| JsonObjects.StreamCountOfObject | llama-proxy/src/fixes/json_scan.rs:67-74 | The count of a text that starts with an object is its key's multiplicity, or 0 when a key does not decode, however the text is read as an object |
| JsonObjects.CountAgreesWithSpans | llama-proxy/src/fixes/json_scan.rs:8-13 | On every byte string the stream count is the number of spans if and only if the walk does not close, or no key it found matches, or every slice it found parses and every key decodes |
| JsonObjects.MalformedTextHasASpan | llama-proxy/src/fixes/json_scan.rs:8-13 | `{"f":}` starts with no object and counts 0, yet has a span and a key list: the agreement claimed for malformed text is false |
| JsonObjects.RejectedLiteralHasASpan | llama-proxy/src/fixes/json_scan.rs:217-225 | So does `{"f":-}`, whose value is not empty |
| JsonObjects.LoneSurrogateHidesTheCount | llama-proxy/src/fixes/json_scan.rs:8-10 | A valid object, with a lone surrogate escape for one key, that has one span for another key and the count 0: the agreement claimed for valid text is false |
| JsonWalkers.KeysImplySpans | llama-proxy/src/fixes/json_scan.rs:84-111 | On every byte string: when the key walker answers, the span walker answers and finds each key as often as the list holds it |
| JsonWalkers.SpansWithoutKeys | llama-proxy/src/fixes/json_scan.rs:253-258 | When the span walker answers, the key walker answers too if and only if every key decodes |
| JsonWalkers.SpansAreOrdered | llama-proxy/src/fixes/json_scan.rs:30-40 | On every byte string the spans are in bounds, in order and disjoint |
| JsonWalkers.SlicesOnBoundaries | llama-proxy/src/fixes/json_scan.rs:143-187 | On every valid UTF-8 text all offsets at which the walkers slice, of every entry from the root or from any offset on, are character boundaries, even after a backslash before a multibyte character |
| JsonWalkers.SpansOnBoundaries | llama-proxy/src/fixes/json_scan.rs:76-82 | So are those of the spans reported |
| Utf8.AsciiEdgeIsBoundary | llama-proxy/src/fixes/json_scan.rs:172-175 | In valid UTF-8, a position beside an ASCII byte is a character boundary |
| JsonWalkers.KeysAfterContinuesKeys | llama-proxy/src/fixes/json_scan.rs:113-138 | After the k-th value, the keys after it are the rest of the key list |
| JsonWalkers.KeysAfterUnderTruncation | llama-proxy/src/fixes/json_scan.rs:113-120 | For every text and cut, the keys proven on the cut text are a prefix of those proven on the whole |
| JsonWalkers.KeysAfterIsSound | llama-proxy/src/fixes/json_scan.rs:113-120 | Of a text whose keys are known, no truncation proves a key that is not there, or out of order |
| JsonRebuild.LaterSpansAreCuttable | llama-proxy/src/fixes/json_scan.rs:481-496 | On every byte string, only blanks lie between the key of a later span and the comma before it |
| JsonRebuild.RebuildFirstWins | llama-proxy/src/fixes/json_scan.rs:481-505 | Collecting the cuts and joining what is left removes exactly comma to value end of every span after the first |
| JsonRebuild.RebuildKeepsFirst | llama-proxy/src/fixes/json_scan.rs:76-82 | On any object, followed by anything, the cut text is the text of the same object without the repeats; all bytes before and behind it stay |
| JsonRebuild.KeepFirstKeeps | llama-proxy/src/fixes/json_scan.rs:76-82 | Without the repeats means: exactly the members but the later ones of that key, in order, equal but for blanks after a value |
| JsonRebuild.FirstOnlySnoc | llama-proxy/src/fixes/json_scan.rs:76-79 | A member is one of the later ones exactly when its key matches and an earlier one's does |
| JsonRebuild.RescanFindsOne | llama-proxy/src/fixes/json_scan.rs:463-471 | The cut text is again such a text and a rescan finds the key exactly once |
| JsonRebuild.RebuiltIsObject | llama-proxy/src/fixes/json_scan.rs:463-479 | Valid in, valid out: an object of RFC 8259 is rebuilt into one, with the key once |
| Conversion.AnthropicToOpenAI | llama-proxy/src/api/openai.rs:523-635 | The block loop with its five accumulators computes the conversion the following rows speak of |
| Conversion.OpenAIFields | llama-proxy/src/api/openai.rs:597-633 | Every field of the response of any message: `end_turn` and `stop_sequence` finish as stop, `max_tokens` as length, `tool_use` as tool_calls, unknown reasons as they are; role, tokens and their sum; the joined texts and reasoning, if any |
| Conversion.TextPartsAre | llama-proxy/src/api/openai.rs:531-588 | Those texts are, in order, those of all text blocks and of all tool results that hold text, and nothing else |
| Conversion.ReasoningPartsAre | llama-proxy/src/api/openai.rs:536-539 | That reasoning is, in order, that of all thinking blocks |
| Conversion.FirstSignatureIs | llama-proxy/src/api/openai.rs:540-542 | The signature kept is that of the first thinking block that has one |
| Conversion.OpenAIToAnthropic | llama-proxy/src/api/openai.rs:640-728 | The pushing of blocks computes the reverse conversion the following rows speak of |
| Conversion.AnthropicFields | llama-proxy/src/api/openai.rs:690-726 | Every field of the message of any response: no usage is 0 and 0 tokens, no choice or no message one empty text, no choice no stop reason; stop, length and tool_calls are mapped back, unknown reasons stay |
| Conversion.ContentIs | llama-proxy/src/api/openai.rs:647-689 | Its blocks: the reasoning, the text unless empty, then a tool use for each call with its name, its id or a new one, and its parsed arguments or an empty object |
| Conversion.ReturnedMessage | llama-proxy/src/api/openai.rs:523-728 | What every message, normal or not, has become after both conversions: its reason by table, one from `stop_sequence` being `end_turn`, its tokens and ids as they were |
| Conversion.ToolUsesBecomeCalls | llama-proxy/src/api/openai.rs:544-555 | In any message, among any other blocks, the k-th tool use becomes call number k with its id, name and printed input, and there are no other calls |
| Conversion.ContentIsNormal | llama-proxy/src/api/openai.rs:643-690 | Whatever the response, the blocks are at most one thinking without signature, at most one non-empty text, then tool uses; or one empty text |
| Conversion.NormalBlocksReturn | llama-proxy/src/api/openai.rs:531-595 | Such blocks come back unchanged from a trip through the OpenAI format if and only if every tool input is what its printed text is read back as |
| Conversion.MessageReturnsIffNormal | llama-proxy/src/api/openai.rs:523-728 | Any message returns unchanged if and only if it is in the stated normal form and every tool input is what its printed text is read back as |
| Conversion.ConversionStabilises | llama-proxy/src/api/openai.rs:597-607 | Converting to Anthropic, back and again equals converting once if and only if the finish reason is not `stop_sequence` |
| Conversion.ToolCallsSurvive | llama-proxy/src/api/openai.rs:665-681 | Through the Anthropic format and back tool calls keep number, order, names, ids where they had one, and what their arguments parse to, an empty object where they do not |
| Conversion.CompletionReturnsIffNormal | llama-proxy/src/api/openai.rs:523-728 | An OpenAI response returns unchanged if and only if it is in the stated normal form; tool calls keep count, order and indices from 0 |
| ContentBlocks.SerializedReadsBack | llama-proxy/src/api/openai.rs:455-512 | A block read back from what it serialises to is that block, except exactly a raw block of a known shape |
| ContentBlocks.KnownBlocksAreRead | llama-proxy/src/api/openai.rs:401-427 | Each field of the four known shapes is read into its own place, an absent or null optional one as none |
| ContentBlocks.PassedOnVerbatimIff | llama-proxy/src/api/openai.rs:375-399 | An object passes through unchanged if and only if it is of no known shape or holds just that shape's fields |
| ContentBlocks.KnownIsTagged | llama-proxy/src/api/openai.rs:429-453 | A block of a known shape is written with exactly that shape's fields, as they came, and null for one that was absent |
| ContentBlocks.SecondPassIsIdentity | llama-proxy/src/api/openai.rs:455-512 | What passed through once passes through a second time unchanged |
| Augment.ExtractUserContent | llama-proxy/src/augment.rs:160-195 | The nested loops read exactly the texts of the user messages, in order, joined by newlines |
| Augment.UserTextsAre | llama-proxy/src/augment.rs:166-192 | Those texts are, in order, every string content and every text part with a string of every message whose role is user, and nothing else |
| Augment.ExtractIs | llama-proxy/src/augment.rs:160-164 | Without a message list the text is empty |
| JsonValue.JoinSnoc | llama-proxy/src/augment.rs:194 | Joining puts one newline before each text but the first |
| Augment.InjectAugmentationValue | llama-proxy/src/augment.rs:237-278 | The backward search and the overwriting of fields compute the injection the lemmas below speak of, errors included |
| Augment.AppendBlock | llama-proxy/src/augment.rs:282-318 | The content with the block in it, or the error, for each shape of content |
| Augment.InjectionIsRead | llama-proxy/src/augment.rs:155-278 | After a successful injection the user's text reads as before and then, at its very end, a blank line, the prompt, a blank line and the augmentation; behind one newline exactly when the last user message does not end in text and another text precedes it; unchanged when no message is the user's |
| Augment.InjectionTouchesOnlyItsTarget | llama-proxy/src/augment.rs:197-236 | Nothing changes but a string `stop` and, in the last user message's content, the text that block ends, or a text part of its own; without a user message one system message with the block follows a non-empty list |
| Augment.InjectionFailsOnlyOnShape | llama-proxy/src/augment.rs:218-236 | Which of the three errors it gives, each if and only if: the body is no object; it has no message list; the last user message's content is a boolean, number or object |
| PromptCache.PromptFileCache.Refresh | llama-proxy/src/prompt_cache.rs:56-87 | Which outcome follows from which stat and read, both ways; both fields move to the reload's values on a reload and stay on every other outcome |
| PromptCache.StepKeepsInv | llama-proxy/src/prompt_cache.rs:58-87 | Every file write, removal and refresher step keeps the cached time honest, refreshes not overlapping |
| PromptCache.CachedTimeIsCurrent | llama-proxy/src/prompt_cache.rs:58-87 | Over every such run: the cached time being the file's, the cached text is the file's, with writes between a stat, its read and either store |
| PromptCache.UnchangedIsNeverStale | llama-proxy/src/prompt_cache.rs:26-27 | A refresh that reports unchanged has the text that stood in the file at its stat, even if it was overwritten since |
| PromptCache.UndisturbedRefreshIsCurrent | llama-proxy/src/prompt_cache.rs:56-72 | A refresh with nothing in between ends within five steps with a non-blank file's text, and its time where there is one, in the cache |
| PromptCache.FailedRefreshKeeps | llama-proxy/src/prompt_cache.rs:28-32 | A failing stat or read, a missing file and a blank one end the refresh with text and time as they were |
| PromptCache.WhiteSpaceIs | llama-proxy/src/prompt_cache.rs:76 | Blank means white space by its 25 code points, those that `trim` strips |
| PromptCache.BlankNeverCached | llama-proxy/src/prompt_cache.rs:28-32 | However many refreshes overlap, the cached text is the initial one or a non-blank one the file once held |
| PromptCache.OverlappingRefreshesTear | llama-proxy/src/prompt_cache.rs:78-79 | A run of two overlapping refreshes that ends with an old text under the file's present time |
| PromptCache.CurrentExactlyForOneRefresher | llama-proxy/src/prompt_cache.rs:74-83 | Refreshers free to overlap keep the promise in all runs if and only if there is at most one |
| PromptCache.SharedCaches.Shared | llama-proxy/src/prompt_cache.rs:92-103 | A known path yields its cache and changes nothing; an unknown one is bound to a new empty cache |
| PromptCache.OneCachePerPath | llama-proxy/src/prompt_cache.rs:89-103 | Under every interleaving of the two locked sections bindings never change, and two callers hold the same cache if and only if they asked for the same path |
| FixRegistry.Registry.Register | llama-proxy/src/fixes/registry.rs:73-78 | The fix runs last and is on; every registered fix has a flag and nothing else has |
| FixRegistry.Registry.SetEnabled | llama-proxy/src/fixes/registry.rs:80-85 | Sets the flag of a registered name and ignores any other |
| FixRegistry.Registry.ApplyFixes | llama-proxy/src/fixes/registry.rs:102-115 | The loop is the composition of the enabled fixes in order, the context left aside |
| FixRegistry.Registry.ApplyFixesWithContext | llama-proxy/src/fixes/registry.rs:117-142 | The loop is the composition of the enabled fixes in order, a failing one passing its input on |
| FixRegistry.PipelineIsTrace | llama-proxy/src/fixes/registry.rs:117-142 | The result is the last of the responses between the fixes, where one that is on, applies and succeeds hands on what it made and any other what it got |
| FixRegistry.TraceExists | llama-proxy/src/fixes/registry.rs:117-142 | Every response has such a chain |
| FixRegistry.BarePipelineIsTrace | llama-proxy/src/fixes/registry.rs:102-115 | The same for fixes run without a request |
| FixRegistry.FixRuns | llama-proxy/src/fixes/registry.rs:122-132 | A fix that is on, applies to what reaches it and succeeds: the rest of the pipeline goes on from what it made |
| FixRegistry.NothingAppliesNothingChanges | llama-proxy/src/fixes/registry.rs:122 | Where no fix that is on applies, the response comes out as it went in |
| FixRegistry.Registry.Configure | llama-proxy/src/fixes/registry.rs:303-318 | A registered fix with an entry takes its flag from it, every other flag stays, in spite of equal names or bases |
| FixRegistry.CreateDefaultRegistry | llama-proxy/src/fixes/mod.rs:208-226 | Every known fix is registered in order and on |
| FixRegistry.CreateRegistryFromConfig | llama-proxy/src/fixes/mod.rs:254-295 | Exactly the wanted fixes are registered, in order and on; none when the global switch is off |
| FixRegistry.CreateConfiguredRegistry | llama-proxy/src/fixes/registry.rs:303-318 | The default registry after `configure` has the flags the next row speaks of, and all known fixes |
| FixRegistry.BothWaysAgreeIff | llama-proxy/src/fixes/mod.rs:228-253 | For any fixes: registering only what a configuration wants and registering all to configure afterwards enable the same names and turn every response into the same one, if and only if the global switch is on or no known fix is wanted |
| FixRegistry.EitherSpelling | llama-proxy/src/fixes/registry.rs:295-302 | Both spellings of a key address the fix, the suffix-free one wins, and any other key changes nothing for it |
| FixRegistry.AbsentMeansEnabled | llama-proxy/src/fixes/mod.rs:230-234 | Fixes without an entry are all built, in order |
| FixRegistry.KnownKeys | llama-proxy/src/fixes/mod.rs:236-240 | The keys that switch the three fixes of the program, with and without `_fix` |
| FixRegistry.ErrorIsAbsence | llama-proxy/src/fixes/mod.rs:197-207 | A fix that fails on what reaches it has the effect of one never registered |
| FixRegistry.DefaultsIgnoreTheRequest | llama-proxy/src/fixes/mod.rs:190-210 | For fixes that keep the default context methods both pipelines give the same response |

## Left out

- HTTP, TLS, file system calls, the async runtime, command line, YAML, logging and
  metrics: clocks, file contents and their failures are parameters or steps of the
  environment; log lines and error wording are not modelled.
- Memory orderings: all counter operations read and modify one location, so steps
  interleave.
- Room: the results on counters assume that no node ever has `usize::MAX` live claims
  and reservations. `RoomFromTheStart` proves that for every run with fewer than
  `usize::MAX` selects; `FallbackOnlyWithoutLoads` says what happens beyond, and wait
  freedom does not assume it.
- PriorityFree.PriorityFreeBalancer.Select: the same room, one step ahead: no counter is
  at `usize::MAX` when it starts. What the source does there is in `SelectProtocol`.
- RoundRobin.RoundRobinBalancer.Select: likewise for the loads; its own counter wraps.
- `mark_failed` takes its time before it takes the lock and stores expiry and flag
  separately: the protocol allows the two stores as separate steps with any values;
  `LatestEventDecides` is about histories in the order of the stores.
- The guard's group name and the placeholder for an empty group map: nothing depends
  on them. A config with a single backend and no groups has only field checks.
- `BackendNode`, `RoundRobinBalancer` and `PriorityFreeBalancer` run one caller at a
  time; concurrent callers of `priority_free` are the subject of `SelectProtocol`.
- Routing: URL, timeout, temperature and cooldown bounds of a group are two booleans;
  the library's sort is any enumeration in name order, of which
  `SortedExists` and `SortedIsUnique` show that there is one.
- Decoding an escaped key is any function from a token to its text or a failure; the
  stream count of `llama-proxy/src/fixes/json_scan.rs:71-74` is the count over the members
  of the object a text starts with, and 0 without one: the parser behind it, which is not
  part of this model, is taken to accept the grammar of RFC 8259 and nothing else.
- ScanValue: the source counts depth in 32 bits; the model's counter never exceeds the
  bytes read, so the two differ only on texts of 2^31 bytes or more.
- The scanner results of `JsonScanGrammar`, `JsonDocuments` and `JsonRebuild` hold for
  more literals than those of the grammar (`JsonGrammar.LiteralsAreValid`): any run of
  bytes that are neither blank nor structural. `JsonObjects` speaks of the grammar's
  own (`IsNumber`, `IsLiteral`).
- JSON values keep a number's text and no order of object members; requests and
  messages are values, so writing into a shared value in place is not modelled.
- AnthropicToOpenAI: the token sum wraps at 2^64, as a release build does; a build with
  overflow checks would stop there instead.
- Deserialize: only objects; what a block written as an array becomes is up to the
  serialisation library, which is not part of this model.
- Conversion results that start from an OpenAI response assume that a parsed value
  survives being printed and parsed again; the ids made up for tool calls
  without one are any function of the call's position.
- Augmentation calls to a second model, and the typed wrapper around the injection.
- PromptCache: a write changes text and time in one step; a writer that reuses a time
  is served stale by design and is excluded by `Enabled`.
- The three concrete fixes, `detect_fixes`, `truncate_snippet` and `aggregate_repairs`:
  a fix is any pair of functions that may fail. Warnings about unknown keys are not
  modelled; that such keys change nothing is (`EitherSpelling`).
- Streaming, synthesis, reprompting, statistics and the other binaries of the
  repository.
