# Crebro in Dafny

Crebro replaces registered secrets in outgoing text with placeholders and puts the secrets back into
what comes in. This project models the logic of that in Dafny and proves what it promises: restoring a
redacted text gives the text back; what a redacted text can still contain is known exactly, and one scan of
the whole string leaves no secret without brace bytes outside a placeholder; caches and streams give the
same answers as the plain operations they speed up; and the codecs at the edges read back what they write.
A large string is scanned in windows. There a secret can stay in the clear at a window edge
(`ChainLeaks`); it cannot where overlap among the secrets' occurrences is transitive or stays inside a
window (`WindowsHideSecrets`).

`dafny verify dfyconfig.toml` checks everything.

## What is modelled

| module | subject |
|---|---|
| `Bytes`, `Lru` | byte strings, searching, and the theory of a least-recently-used queue |
| `Placeholder`, `Registry`, `Registrations` | the text of placeholders; entries, the (length, prefilter) index, the version; what registering adds, wherever secrets come from |
| `Span`, `Scanner`, `Window` | the longest-first greedy choice, the scan, the windowed scan of a large string |
| `Cache`, `CacheTrace`, `ObjectTrace` | the versioned cache, whole runs of registry and cache together, and what an object's lookup gives back |
| `Matcher`, `Restore`, `RoundTrip` | the left-to-right search, the streaming restorer, redaction followed by restoration |
| `Secrecy`, `DirectiveSecrecy` | what a redacted text, or a text with directives, can still contain |
| `Fragment`, `FragmentExact` | the restorer that holds back a suffix, and exactly when it is right |
| `Sse`, `SseEvents` | event splitting, and what a stream's separators and events are |
| `ChunkCodec`, `ChunkGrammar`, `Unicode` | HTTP chunks (section 7.1 of RFC 9112), and exactly which bodies and size lines are read |
| `ChunkRelay`, `SseRelay` | the two relay loops |
| `WsFrame`, `WsLayout`, `WsRelay`, `WsHistory` | WebSocket frames (sections 5.2 and 5.3 of RFC 6455), reassembly (section 5.4), and the relay of any frames at all |
| `Directive`, `DirectiveText` | the `<cb>…</cb>` grammar, and texts with directives |
| `JsonTree`, `JsonStream`, `JsonStrings` | JSON texts as trees, the recursive traversal, the byte-driven machine, and which strings are rewritten |
| `Conversation`, `ConversationText`, `ConversationRun` | the conversation sanitizer with its memo of replacements, and what it puts out for a text with directives |
| `Limits` | concrete inputs on which a wider claim would be false |

Objects that the program updates in place are classes here, and their loops are loops. Each method is
proved against a function of the inputs or of the old state, and the laws are proved about those
functions, so that they speak about every input and every run.

Abstractions: the keyed digest and the cache key are injective; the prefilter and the placeholder's MAC
are arbitrary functions; two entries never share a placeholder (`DistinctPlaceholders`, a hypothesis
where it is needed); a capsule gives back the bytes it was made from; the Aho-Corasick search is the
left-to-right search that does not overlap; the registry version does not saturate, so it equals the number of
entries; reads from a socket are a list of non-empty blocks. Random numbers, credential patterns, the
rewriting of a JSON string, of a WebSocket text and of an event are parameters about which nothing is
assumed.

Where a promise does not hold of the code in full, the exact condition is proved: the hold-back restorer
(`FragmentsExact`), the windowed scan (`WindowScanAgrees`, with `LocalWindowScan` and
`TransitiveWindowScan` for conditions that can be looked up before the scan), what a redacted text still
contains (`NoSecretSurvives`, `WindowShows`), and a string that meets an object's cache entry
(`AnswerIsFresh`). A chunk's size may have a plus sign in front, which section 7.1 of RFC 9112 does not have
(`ReadLineSays`). `Limits`, `CutBehindFirstByte` and `LostByteFails` give the inputs that fail.

## Model

| member | source | states |
|---|---|---|
| Placeholder.SecretLabel | src/secrets/registry.rs:22-41 | a label is never empty and has only label bytes, so no brace |
| Placeholder.LabelOfName | src/secrets/registry.rs:22-41 | letters, digits, `_` and `-` of a name stay where they are, every other character becomes `_`, and an empty name gives `SECRET` |
| Placeholder.NewPlaceholderShaped | src/secrets/placeholder.rs:14-26 | every placeholder starts with two braces, ends with two, and has no other |
| Placeholder.PlaceholderRead | src/secrets/placeholder.rs:14-26 | the fixed texts, the label and the hexadecimal form of the first six bytes of the MAC stand in this order, with nothing else |
| Placeholder.HexEncodeAt | src/secrets/placeholder.rs:20-20 | each byte gives two of the digits 0-9 and a-f, the higher one first |
| Placeholder.PlaceholderTellsApart | src/secrets/placeholder.rs:14-26 | two placeholders are equal if and only if their labels and the first six bytes of their MACs are |
| Placeholder.NoPartialOverlap | src/secrets/placeholder.rs:14-26 | two placeholders that stand in one text are apart or are the same one at the same place |
| Registry.IngestedProperty | src/secrets/registry.rs:112-153 | an ingest keeps the entries well formed and only appends; its id is the only one with that secret; a secret held before adds nothing |
| Registry.ReachedWellFormed | src/secrets/registry.rs:112-153 | after any run of ingests the entries are well formed and hold exactly the non-empty secrets given |
| Registrations.ListsFirstGiven | src/secrets/registry.rs:112-153 | after any run of ingests each non-empty secret is listed once, in the order in which they were first given, under its first label and the placeholder made from it |
| Registry.IdsWithMembers | src/secrets/registry.rs:194-201 | the index lists under a key exactly the ids of that length and prefilter, in ingest order |
| Registry.PlaceholderTraced | src/secrets/registry.rs:143-149 | every key of the placeholder index leads to an entry with that placeholder |
| Registry.PlaceholderIndexed | src/secrets/registry.rs:143-149 | every entry's placeholder is in the index |
| Registry.LengthsOf | src/secrets/registry.rs:183-192 | the lengths are those of the entries, each once, in increasing order |
| Registry.MaxLen | src/secrets/registry.rs:167-173 | the greatest secret length, zero without secrets |
| Registry.SecretRegistry.MinSecretLen | src/secrets/registry.rs:163-165 | the least secret length, nothing for an empty registry |
| Registry.IdFindsSecret | src/secrets/registry.rs:203-206 | the id that an ingest returned leads to the ingested secret after any further ingests, and every id with an entry is the one an ingest of its secret returns |
| Registry.SecretRegistry.constructor | src/secrets/registry.rs:98-106 | a new registry is empty and valid |
| Registry.SecretRegistry.Ingest | src/secrets/registry.rs:112-153 | the entries after an ingest are those of the specification; both indexes and the version follow |
| Registry.SecretRegistry.Candidates | src/secrets/registry.rs:194-201 | through the index exactly the entries of a length and prefilter are found |
| Registry.SecretRegistry.Placeholders | src/secrets/registry.rs:208-213 | exactly the pairs of the placeholder index, each placeholder once |
| Registry.SecretRegistry.RestoreToVec | src/secrets/registry.rs:236-241 | appends the secret of a known id, refuses any other |
| Span.SelectIsChoice | src/redact/span.rs:21-43 | the result is disjoint and ordered, and each span left out overlaps a chosen one ranked before it |
| Span.ChoiceUnique | src/redact/span.rs:21-43 | there is only one such choice |
| Span.GreedyProperty | src/redact/span.rs:30-40 | what the greedy pass has settled at each step |
| Span.WhyNotSelected | src/redact/span.rs:21-43 | a span is left out only for a chosen one that shares a place with it and is longer, or as long and further left, or the same stretch under a smaller id |
| Span.SelectLongestNonOverlapping | src/redact/span.rs:21-43 | the loop computes that choice |
| Span.WrittenIsApplied | src/redact/span.rs:45-63 | for ordered and disjoint spans what is written is the text with each span replaced |
| Span.ApplySpans | src/redact/span.rs:45-63 | the loop's output for any spans inside the text; for ordered and disjoint ones the text with each replaced by its placeholder |
| Scanner.ScanUnique | src/redact/scanner.rs:5-37 | a list of spans is the scan's result if and only if it is the choice among all true occurrences |
| Scanner.ScanIsChoice | src/redact/scanner.rs:5-37 | the scan's spans are true occurrences inside the text, disjoint, with a reason for each left out |
| Scanner.WhyLeftOut | src/redact/scanner.rs:5-37 | an occurrence is left out only for a chosen one that shares a byte with it and is longer, or as long and starting further left |
| Scanner.AllOccurrencesMembers | src/redact/scanner.rs:15-34 | testing all secrets everywhere finds exactly the true occurrences |
| Scanner.ScanEmpty | src/redact/scanner.rs:6-10 | a text shorter than every secret has no spans, so the early return changes nothing |
| Scanner.ScanLength | src/redact/scanner.rs:16-33 | for one length the search by start and prefilter finds every true occurrence and nothing else |
| Scanner.ScanStringToken | src/redact/scanner.rs:5-37 | the search by length, start and prefilter index finds what testing all secrets finds |
| Window.WindowScanIsChoice | src/redact/cache.rs:197-226 | the windows' spans are true occurrences, and the result is a choice among what the windows contribute |
| Window.OwnerSeesOccurrence | src/redact/cache.rs:206-220 | every occurrence lies in full in the one window that owns its start |
| Window.WindowScanAgrees | src/redact/cache.rs:197-226 | windowed and whole scan agree if and only if every span of the whole scan is chosen by the window that owns its start |
| Window.TransitiveWindowScan | src/redact/cache.rs:197-226 | they agree whenever overlap among the occurrences is transitive |
| Window.ClosedAgrees | src/redact/cache.rs:206-220 | among occurrences inside a window that no other occurrence has a say in, the window chooses as the whole scan does |
| Window.LocalWindowScan | src/redact/cache.rs:197-226 | the scans agree whenever every occurrence lies among such ones inside the window that owns it |
| Window.WindowThenRestore | src/redact/cache.rs:197-226 | a text redacted by windows and streamed through the restorer comes back, whether or not the scans agree |
| Matcher.NewMatcher | src/restore/matcher.rs:16-37 | the matcher has exactly the registered placeholders with their ids |
| Matcher.MaxPatternLen | src/restore/matcher.rs:53-55 | no pattern is longer, and one is as long, if there is one |
| Matcher.FindInMatches | src/restore/matcher.rs:39-51 | the matches lie in the text, ordered and disjoint, each the first pattern that stands at its start, under its id |
| Matcher.FindInMissesNone | src/restore/matcher.rs:39-51 | no pattern stands anywhere outside the matches |
| Matcher.TokensGap | src/restore/matcher.rs:39-51 | a stretch without matches is read as its own bytes |
| Restore.ResponseRestorer.PushChunk | src/restore/stream.rs:22-26 | a push puts out what no later byte can change and keeps the rest |
| Restore.ResponseRestorer.Finish | src/restore/stream.rs:28-31 | a finish restores all that is kept |
| Restore.ResponseRestorer.ProcessUntil | src/restore/stream.rs:33-64 | the loop over matches renders the tokens that start before the safe end |
| Restore.PushIsPrefix | src/restore/stream.rs:22-26 | what a push puts out begins the one-shot pass over the stream, whatever follows |
| Restore.StreamedIsOneShot | src/restore/stream.rs:22-64 | for every cut of a stream the outputs add up to the one-shot pass over all of it |
| Restore.BufferBound | src/restore/stream.rs:12-26 | after a push the buffer is shorter than the longest placeholder, empty without one |
| Restore.StreamedRestores | src/restore/stream.rs:22-64 | so the bytes put out are the one-shot restoration |
| RoundTrip.WeaveRestores | src/restore/matcher.rs:39-51 | a text of placeholder-free gaps and inserted placeholders restores to the gaps and secrets |
| RoundTrip.RedactThenRestore | src/redact/span.rs:45-63 | a placeholder-free text, redacted over any disjoint true occurrences and streamed back in any chunks, is unchanged |
| RoundTrip.ScanThenRestore | src/redact/scanner.rs:5-37 | the same for the scan's spans, for every registry reached by ingests |
| Secrecy.BraceFreeIsSeamless | src/secrets/placeholder.rs:14-26 | a string without braces can stand across no edge of a placeholder |
| Secrecy.SeamSplit | src/redact/span.rs:45-63 | a seamless string stands on one side of a placeholder, on the other, or inside it |
| Secrecy.RedactionShows | src/redact/span.rs:45-63 | for any ordered spans a seamless string occurs in the redacted text if and only if it is part of an inserted placeholder or stands in the original apart from every span |
| Secrecy.NoSecretSurvives | src/redact/span.rs:21-63 | after one scan a seamless secret, so a brace-free one, occurs in the redacted text if and only if it is part of an inserted placeholder |
| Secrecy.WindowShows | src/redact/cache.rs:197-226 | after the windowed scan it also occurs where it stands apart from every chosen span, and only there |
| Secrecy.WindowsHideSecrets | src/redact/cache.rs:197-226 | with transitive overlap, or overlap local to windows, the windowed path hides what one scan hides |
| Lru.TouchedAllIsRecency | src/redact/cache.rs:299-326 | a bounded queue driven by uses is the end of the list of distinct keys in recency order |
| Lru.InQueue | src/redact/cache.rs:299-326 | a key is in the queue if and only if it was used and fewer distinct keys than the capacity were used after its last use |
| Cache.RedactionCache.constructor | src/redact/cache.rs:95-108 | a new cache is empty; a chunk is at least 1024 bytes |
| Cache.RedactionCache.Flush | src/redact/cache.rs:114-119 | empties both map and queue |
| Cache.RedactionCache.SyncRegistryVersion | src/redact/cache.rs:121-125 | empties the cache exactly when the version changed |
| Cache.RedactionCache.CachedEntry | src/redact/cache.rs:317-322 | a hit gives the entry and makes its key the most recent |
| Cache.RedactionCache.Insert | src/redact/cache.rs:299-315 | the most recent keys survive up to the capacity, with the new entry under its key |
| Cache.RedactionCache.Evict | src/redact/cache.rs:306-314 | the eviction loop drops the oldest keys from map and queue alike |
| Cache.RedactionCache.SanitizeStringDetailed | src/redact/cache.rs:131-195 | the answer and the cache after it are those of the specification, in each of its three paths |
| Cache.RedactionCache.SanitizeSmallString | src/redact/cache.rs:144-194 | the lookup, the scan on a miss, and what is stored |
| Cache.RedactionCache.SanitizeLargeStringDetailed | src/redact/cache.rs:197-226 | the text rewritten over the choice among what the windows keep |
| Cache.RedactionCache.SpansForWindow | src/redact/cache.rs:228-258 | the spans of a window are those of a scan, whatever the cache holds; an object's entry is not taken |
| Cache.RedactionCache.LookupObject | src/redact/cache.rs:266-282 | the lookup before an object's contents are visited: the stored output and ids, or nothing, and the cache after it |
| Cache.RedactionCache.StoreObject | src/redact/cache.rs:283-297 | the store after it, or a flush when the registry moved meanwhile |
| Cache.WindowsLookedProperty | src/redact/cache.rs:197-258 | through the cache the windows keep exactly what they keep without it, and use their keys in order |
| CacheTrace.StepKeeps | src/redact/cache.rs:114-326 | every step of ingests, strings and objects keeps the cache sound and moves the queue by the keys it uses |
| CacheTrace.CacheIsMostRecent | src/redact/cache.rs:299-326 | after any run the queue lists once each, in recency order, exactly the most recent distinct keys since the last flush, and the map holds those |
| CacheTrace.HeldIfRecent | src/redact/cache.rs:299-326 | after any run a key is held if and only if it was used since the last flush and fewer distinct keys than the capacity were used after that |
| CacheTrace.UsedIsNewest | src/redact/cache.rs:144-322 | sanitizing a string within the chunk size, finding something under an object's bytes and storing an object leave their key held and the most recent |
| CacheTrace.AnswerIsFresh | src/redact/cache.rs:131-195 | an answer is the uncached answer at the current version, or else the object's entry under those very bytes |
| CacheTrace.EveryAnswerIsFresh | src/redact/cache.rs:114-195 | over every interleaving a string whose bytes no object was stored under is answered as if there were no cache |
| ObjectTrace.EntryIsLastStored | src/redact/cache.rs:283-326 | after any run an object's entry is the output and the ids that the last store under its key put there |
| ObjectTrace.LookupGivesLastStored | src/redact/cache.rs:266-282 | a lookup that hits answers exactly what the last store that took effect for these bytes at the present version put there |
| ObjectTrace.StoreIsFound | src/redact/cache.rs:283-297 | right behind a store that takes effect the lookup answers what was stored |
| ObjectTrace.LateStoreIsLost | src/redact/cache.rs:283-297 | a store made for a version that has passed leaves nothing to find |
| Limits.ChainAcrossEdge | src/redact/cache.rs:206-220 | three overlapping secrets across a window edge, for every window size: windowed and whole scan differ |
| Limits.ChainLeaks | src/redact/cache.rs:206-220 | on that input a brace-free secret goes out in the clear |
| Limits.BraceSecretReappears | src/redact/span.rs:45-63 | a secret with braces comes back at the seam of a placeholder |
| Limits.ObjectEntryServedToString | src/redact/cache.rs:169-176 | with the secret "{}" the empty object is stored as it is, and the string "{}" is then answered in the clear |
| Fragment.PlaceholderPrefixSuffixLen | src/proxy/server.rs:872-884 | the longest suffix, of two bytes or more, that begins a placeholder and is not all of it |
| Fragment.HoldLenLongest | src/proxy/server.rs:872-884 | no longer suffix is to be held, and this one is |
| Fragment.PlaceholderFragmentRestorer.PushText | src/proxy/server.rs:758-771 | the raw bytes released and those held are the bytes received; the output restores what is released |
| Fragment.PlaceholderFragmentRestorer.Finish | src/proxy/server.rs:773-778 | a finish restores what is held |
| Fragment.PlaceholderFragmentRestorer.RestoreCompletePlaceholders | src/proxy/server.rs:780-803 | one-shot restoration of a text |
| FragmentExact.HeldCutsNothing | src/proxy/server.rs:872-884 | the held suffix never cuts into a complete placeholder |
| FragmentExact.SplitExact | src/proxy/server.rs:780-803 | restoring two parts apart is right if and only if no placeholder that the pass meets lies across the cut |
| FragmentExact.FragmentsExact | src/proxy/server.rs:758-803 | the outputs add up to the one-shot restoration if and only if no cut comes right behind a placeholder's first byte without two braces held |
| FragmentExact.FragmentsRestore | src/proxy/server.rs:758-803 | so they do when no cut comes right behind a placeholder's first byte |
| FragmentExact.CutBehindFirstByte | src/proxy/server.rs:876-876 | cutting any placeholder right behind its first byte loses it |
| Sse.EventEndStable | src/proxy/server.rs:886-895 | more bytes never move the end of a complete event |
| SseEvents.FirstEventEnds | src/proxy/server.rs:886-895 | an event's end is reported at a place with a length if and only if the separator of that length stands there and neither separator stands earlier |
| Sse.SplitAppend | src/proxy/server.rs:673-684 | splitting in two goes gives the same events and the same leftover |
| Sse.LeftoverIsPartial | src/proxy/server.rs:673-684 | no complete event is left in the buffer |
| SseEvents.SplitIsWritten | src/proxy/server.rs:673-684 | the text is the events, each with one of the two separators behind it, and then the leftover; none of these holds a separator |
| SseEvents.WrittenIsSplit | src/proxy/server.rs:673-684 | and every text written so is split into these events and this leftover |
| SseEvents.StreamGives | src/proxy/server.rs:673-700 | however such a text is cut, what goes out is each event restored in turn with two line feeds behind it, then the leftover restored, if there is one, and then the tail |
| Sse.SseStreamIsOneShot | src/proxy/server.rs:673-700 | every cut of a stream gives the same events, the same outputs and the same finish |
| Sse.SseStreamRestorer.PushChunk | src/proxy/server.rs:673-684 | the loop puts out the complete events and keeps the leftover |
| Sse.SseStreamRestorer.Finish | src/proxy/server.rs:686-700 | the leftover counts as a last event, and the pending text follows |
| ChunkCodec.SizeLineRoundTrip | src/proxy/server.rs:951-979 | the size line that is written is read back as the size, up to the greatest machine word |
| ChunkGrammar.SizeLineRead | src/proxy/server.rs:951-957 | a line with hexadecimal digits of either case and any leading zeros, white space around them and anything behind a semicolon is read as the positional value of the digits |
| ChunkGrammar.ReadLineSays | src/proxy/server.rs:951-957 | and a line that is read as a number is one of these, up to a plus sign in front of the digits |
| Unicode.EncodedIsUtf8 | src/proxy/server.rs:952-953 | what is accepted as text includes the encoding of any code points |
| Unicode.Utf8IsEncoded | src/proxy/server.rs:952-953 | and nothing else |
| ChunkCodec.DecodeWire | src/proxy/server.rs:959-979 | a written chunk is read back in front of whatever follows |
| ChunkCodec.DecodeWireAll | src/proxy/server.rs:959-979 | a written body decodes to its non-empty chunks, with nothing left behind its end |
| ChunkGrammar.BodyDecoded | src/proxy/server.rs:562-589 | a body of chunks with such size lines, a last chunk and any trailers decodes to its chunks and leaves what stands behind it |
| ChunkGrammar.DecodedIsBody | src/proxy/server.rs:562-589 | and a text that decodes completely is such a body and what is left |
| ChunkCodec.DecodeUnfinished | src/proxy/server.rs:959-979 | written chunks without a last chunk are not a complete body |
| ChunkRelay.ChunkReader.ReadChunkLine | src/proxy/server.rs:897-919 | the bytes up to the first line end, however the socket cuts them |
| ChunkRelay.ChunkReader.ReadExactPending | src/proxy/server.rs:921-938 | exactly the next bytes, or nothing when the stream ends before |
| ChunkRelay.ChunkReader.ReadChunkTrailers | src/proxy/server.rs:940-949 | reads up to the empty line |
| ChunkRelay.Client.WriteHttpChunk | src/proxy/server.rs:959-979 | writes nothing for an empty chunk, else size, data and delimiter |
| ChunkRelay.ForwardChunkedBody | src/proxy/server.rs:562-589 | what is written is a function of the upstream's bytes alone, also when they are malformed or cut short |
| ChunkRelay.OutsAddUp | src/proxy/server.rs:562-589 | the outputs of the loop add up to the one-shot restoration of the decoded body |
| ChunkRelay.RelayDecodes | src/proxy/server.rs:562-589 | the relay's body is well formed, has no empty chunk before its end and decodes to the one-shot restoration of the decoded input |
| ChunkRelay.CutStaysCut | src/proxy/server.rs:562-589 | a body that is broken or cut short is relayed as one that is cut short, whose data begins the one-shot restoration of the chunks read in full |
| SseRelay.SseRelayLoop | src/proxy/server.rs:591-640 | what the event relay writes, and whether it succeeds, is a function of the upstream's bytes alone |
| SseRelay.SseRelayDecodes | src/proxy/server.rs:591-640 | it succeeds exactly when the body is complete and no event is refused; then its body is well formed, has no empty chunk before its end and decodes to the one-shot restoration of the decoded events |
| SseRelay.FailureStaysOpen | src/proxy/server.rs:591-640 | a relay that fails leaves its body without an end, with the chunks put out before the failure |
| WsFrame.MaskedTwice | src/proxy/websocket.rs:589-593 | masking twice under one key changes nothing |
| WsFrame.XorBits | src/proxy/websocket.rs:589-593 | each bit of the result is set if and only if it differs in the two bytes |
| WsFrame.MaskedBits | src/proxy/websocket.rs:589-593 | the same for every byte of a payload and the byte of the key that falls to it |
| WsFrame.ApplyMask | src/proxy/websocket.rs:589-593 | the loop masks the array in place: a bit of a byte is flipped if and only if it is set in the byte of the key that falls to it |
| WsFrame.BuildFrame | src/proxy/websocket.rs:544-587 | the bytes built step by step are those of the frame |
| WsFrame.FrameReader.ReadFrame | src/proxy/websocket.rs:477-542 | the reader takes the frame the specification says, or tells the end from a refusal |
| WsFrame.BigEndianRoundTrip | src/proxy/websocket.rs:505-516 | an extended length is read back as written |
| WsFrame.FrameRoundTrip | src/proxy/websocket.rs:477-587 | reading a written frame gives the same frame and leaves the bytes behind it, in all three length forms |
| WsFrame.FramesRoundTrip | src/proxy/websocket.rs:477-587 | a concatenation of written frames is read back as the same list |
| WsLayout.FirstByteFields | src/proxy/websocket.rs:490-499 | the first byte holds the final bit, three reserved bits and the opcode, in this order |
| WsLayout.SecondByteFields | src/proxy/websocket.rs:490-503 | the second byte holds the mask bit and the length code |
| WsLayout.WrittenIsLaid | src/proxy/websocket.rs:544-587 | a frame is written in the layout of section 5.2 of RFC 6455, field by field, with the shortest length form and no reserved bit |
| WsLayout.ReadsExactlyFrames | src/proxy/websocket.rs:477-542 | a frame is read from a text if and only if the text begins with that frame in some layout, of any length form and with any reserved bits, that is masked as the reader demands and within its limit |
| WsRelay.MessageBuffer.AppendFragment | src/proxy/websocket.rs:216-225 | appends within the limit, refuses and changes nothing beyond it |
| WsRelay.ClientRelay.HandlePassthroughFrame | src/proxy/websocket.rs:182-214 | binary and continuation as they are, control frames final, a close stops, all else is refused |
| WsRelay.ClientRelay.HandleClientFrame | src/proxy/websocket.rs:84-130 | buffer, sanitizer, output and verdict after a frame |
| WsRelay.ClientRelay.RelayClient | src/proxy/websocket.rs:26-76 | the loop over the client's side does what a run over the bytes does, when no read is given up midway |
| WsRelay.NothingLost | src/proxy/websocket.rs:41-76 | reads given up for the other side change nothing as long as they had taken no byte |
| WsRelay.LostByteFails | src/proxy/websocket.rs:41-76 | one byte lost that way turns a ping that would be relayed into an error |
| WsRelay.RunIsFaithful | src/proxy/websocket.rs:84-130 | for every conforming sequence the relayed frames conform and reassemble to the same events in the same order with only text rewritten; the relay fails exactly when a rewrite fails or the limit is passed |
| WsRelay.AnyRun | src/proxy/websocket.rs:84-225 | for any sequence: without active text the buffer is empty, every text frame sent came out of the rewriter, nothing follows a close |
| WsHistory.AnyFrames | src/proxy/websocket.rs:84-225 | for any sequence: each frame up to the end of the run is answered as the frames before it tell, and the run fails exactly at the first frame with a reserved opcode, too long a text, or a text not rewritten |
| WsRelay.RelayOfBytes | src/proxy/websocket.rs:84-130 | the same from the client's bytes, under any mask keys |
| WsRelay.RelayEndToEnd | src/proxy/websocket.rs:84-130 | a server that reads the relay's bytes sees the client's messages and control frames, with the text rewritten |
| Directive.ParsedIsTagged | src/redact/directive.rs:85-146 | on success the parts with tags put back are the input, tag-free and not empty |
| Directive.TaggedIsParsed | src/redact/directive.rs:85-146 | every alternation in the grammar is parsed back to itself |
| Directive.ParsesExactlyTheGrammar | src/redact/directive.rs:85-146 | parsing succeeds if and only if the input is in the grammar |
| Directive.ErrorExplained | src/redact/directive.rs:98-139 | a refused input is some good parts and then the fault that the error names |
| Directive.FaultReported | src/redact/directive.rs:98-139 | and every such input is refused with that error |
| Directive.ParseRanges | src/redact/directive.rs:85-146 | the loop terminates with the ranges of those parts, or that error |
| DirectiveText.RegisteredProperty | src/redact/directive.rs:53-63 | every tagged secret is held in the end and nothing held before is lost |
| Registrations.TaggedAreRegistered | src/redact/directive.rs:53-63 | what is added is one entry for each tagged secret that is new, in the order of the text, under the label USER |
| DirectiveText.ParseUserSecretDirectives | src/redact/directive.rs:31-77 | registers the tagged secrets in order and passes the parts on with their placeholders; a syntax error or a text without secrets changes nothing |
| DirectiveText.ReplaceUserSecretDirectives | src/redact/json_sanitizer.rs:593-623 | text, ids and cache are those of the parts answered in order under the registry with all tagged secrets, whatever the cache holds |
| DirectiveText.AnsweredIsSpliced | src/redact/json_sanitizer.rs:593-623 | where no object's entry stands under a plain part's bytes, every plain part is redacted as without a cache and every tagged one is its placeholder; the ids are those of the plain parts, in order |
| Registrations.TaggedIdsNameSecrets | src/redact/json_sanitizer.rs:593-623 | the ids passed on for tagged parts lead to their secrets, one for each tag, in the order of the text |
| DirectiveText.AnswerIds | src/redact/cache.rs:329-331 | the ids of an answer name, from left to right, the secrets that stood where it was redacted |
| DirectiveText.PlainAnswered | src/redact/json_sanitizer.rs:322-329 | a plain part is answered as without a cache, and answering it stores no object's entry |
| DirectiveText.DirectivesRestore | src/redact/json_sanitizer.rs:593-623 | restoring what goes out, in any chunks, gives the text with only its tags removed |
| DirectiveSecrecy.SplicedShows | src/redact/json_sanitizer.rs:593-623 | a seamless string occurs in what goes out if and only if it is part of an inserted placeholder or stands in a plain part apart from every span, seams between parts included |
| DirectiveSecrecy.DirectivesHideSecrets | src/redact/json_sanitizer.rs:593-623 | a seamless held secret occurs in it if and only if it is part of an inserted placeholder, for parts within the chunk size or with harmless overlap |
| JsonTree.RewritingKeepsSkeleton | src/redact/json_sanitizer.rs:380-465 | the traversal changes string values and no other byte |
| JsonTree.RewritingKeepsJson | src/redact/json_sanitizer.rs:380-465 | with a rewriter that gives literals the result is a JSON text again |
| JsonStrings.TraversalRewritesStrings | src/redact/json_sanitizer.rs:380-465 | each string value is rewritten once, in the order of the text, under the decoded keys on the way to it, with the state handed on; it fails if and only if a key is not decoded or a string refused |
| JsonStrings.SkeletonAndStrings | src/redact/json_sanitizer.rs:380-465 | a tree is known from its string values and all the rest |
| JsonTree.TreeSanitizer.SanitizeValue | src/redact/json_sanitizer.rs:380-465 | the traversal with one path that is pushed and popped gives the specification's tree and leaves the path as it was |
| JsonStream.RunString | src/redact/json_sanitizer.rs:165-195 | a string literal is read to its closing quote, whatever its escapes, and completed once |
| JsonStream.EndedBegun | src/redact/json_sanitizer.rs:874-889 | leaving a container restores the path and the containers around it |
| JsonStream.RunValue | src/redact/json_sanitizer.rs:158-204 | on a printed value the machine puts out the rewritten tree's printing under the traversal's key paths, and fails exactly when the traversal fails |
| JsonStream.PushesAreOneRun | src/redact/json_sanitizer.rs:158-204 | for any bytes, JSON or not, the cut into chunks makes no difference |
| JsonStream.DocumentStreamed | src/redact/json_sanitizer.rs:158-226 | a JSON text with any white space in any chunks comes out as the printing of the rewritten tree, keys and all other bytes as they were, and the machine is back at its start |
| JsonStrings.DocumentStrings | src/redact/json_sanitizer.rs:158-226 | so for a JSON text in any chunks the output differs from it in the string values alone, each in its place what the rewriter gave for it under its key path |
| JsonStream.StreamingJsonState.ObserveStructuralByte | src/redact/json_sanitizer.rs:848-872 | brackets open and close containers, a comma in an object asks for a key |
| JsonStream.StreamingJsonState.BeginContainer | src/redact/json_sanitizer.rs:874-883 | the pending key joins the path |
| JsonStream.StreamingJsonState.EndContainer | src/redact/json_sanitizer.rs:885-889 | the path is cut back to what it was |
| JsonStream.StreamingJsonState.TakePendingObjectKey | src/redact/json_sanitizer.rs:929-937 | takes the key of the object on top, once |
| JsonStream.JsonSanitizer.CompleteString | src/redact/json_sanitizer.rs:173-190 | a key is kept and remembered, a value rewritten under its path |
| JsonStream.JsonSanitizer.PushStreamChunk | src/redact/json_sanitizer.rs:158-204 | the loop over the bytes of a chunk is a run of the machine |
| JsonStream.AnyText | src/redact/json_sanitizer.rs:164-204 | every byte string is bytes outside literals, closed literals, and maybe a literal cut short |
| JsonStrings.AnyTextStreamed | src/redact/json_sanitizer.rs:158-204 | for any bytes the pieces come out one for one and in order: a byte outside every literal as it was, a closed literal as it was or rewritten, and nothing of one cut short |
| JsonStream.FinishFailsInside | src/redact/json_sanitizer.rs:206-226 | after any pushes the finish fails exactly when the bytes pushed end inside a literal, and else adds nothing |
| JsonStream.DocumentFinished | src/redact/json_sanitizer.rs:206-226 | after a JSON text it succeeds |
| Conversation.ReplacementDiffers | src/sanitize.rs:317-327 | whatever is drawn, the replacement differs from the secret and is made of letters and digits |
| Conversation.RandomAt | src/sanitize.rs:897-904 | each byte is the letter of the alphabet that its own draw picks |
| Conversation.ReplacementDrawn | src/sanitize.rs:317-327 | the replacement is the first of nine texts drawn that differs from the secret; when none does, it is the secret with its first byte made `a`, or `b` if it is `a` |
| Conversation.RememberedProperty | src/sanitize.rs:304-331 | a secret gets a replacement of its own length, and no other replacement changes |
| Conversation.ScanChosenAgain | src/sanitize.rs:221-233 | choosing again among the scan's spans changes nothing |
| Conversation.ReplacedInPlace | src/sanitize.rs:279-302 | with equal lengths the total length and every byte outside the spans stay, and each span holds its replacement |
| Conversation.CallKeeps | src/sanitize.rs:177-331 | every call keeps what replacements are like and changes none |
| Conversation.OneReplacementEach | src/sanitize.rs:304-331 | across any calls a secret keeps its one replacement, of equal length and different from it |
| Conversation.BytesInPlace | src/sanitize.rs:221-233 | on bytes the length and all bytes outside the scan's spans stay, after any run |
| Conversation.TextInPlace | src/sanitize.rs:185-219 | the same for a text without directives, with its matches registered first |
| Registrations.MatchesAreRegistered | src/sanitize.rs:257-268 | the matches up to the first empty one are registered in order, each new secret under its pattern's label; the flag tells whether there is no empty one |
| Registrations.MatchesAreHeld | src/sanitize.rs:257-268 | when no match is empty, exactly the matches are held besides what was held before |
| ConversationText.NormalizedInPlace | src/sanitize.rs:235-255 | the text to scan has the plain parts in place, and where each directive was the placeholder of its secret |
| ConversationText.MarkSpansArePlaces | src/sanitize.rs:198-206 | the directives' spans are all the places where their placeholders stand, under their ids, and nothing else |
| ConversationText.DirectiveChosen | src/sanitize.rs:185-208 | a directive's placeholder is chosen, or left out for a chosen span ranked before it; without braces in held secrets and with distinct placeholders it is chosen |
| ConversationText.ReplacedInterleaves | src/sanitize.rs:279-302 | the output is the gaps of the text and the replacements by turns, for spans of any length |
| ConversationText.TextPutOut | src/sanitize.rs:185-219 | the whole call on a text with directives: parts in place first, and then every chosen span replaced |
| ConversationText.DirectiveReplaced | src/sanitize.rs:185-219 | without braces in held secrets and with distinct placeholders each directive comes out as the one replacement of its own secret, as long as the secret and different from it |
| ConversationRun.ConversationSanitizer.Ingest | src/sanitize.rs:177-179 | the id and the session of the specification, or its refusal |
| ConversationRun.ConversationSanitizer.DrawAscii | src/sanitize.rs:897-904 | the loop makes the text of the next draws |
| ConversationRun.ConversationSanitizer.ReplacementFor | src/sanitize.rs:304-331 | the memo after a lookup, up to eight draws more and the changed first byte included; an unknown id is refused |
| ConversationRun.ConversationSanitizer.ApplyReplacementSpans | src/sanitize.rs:279-302 | the loop gives the text with each span replaced by what the memo then holds |
| ConversationRun.ConversationSanitizer.SanitizeBytesExact | src/sanitize.rs:221-233 | output, count and session of the specification |
| ConversationRun.ConversationSanitizer.NormalizeDirectives | src/sanitize.rs:235-255 | the text to scan, with placeholders where the directives were |
| ConversationRun.ConversationSanitizer.RegisterMatches | src/sanitize.rs:257-268 | ingests the matches in order, up to the first empty one |
| ConversationRun.ConversationSanitizer.ChooseSpans | src/sanitize.rs:189-208 | the choice among the scan's spans and every place of a directive's placeholder |
| ConversationRun.ConversationSanitizer.SanitizeText | src/sanitize.rs:185-219 | output, count and session of the specification, and which error comes when |

## Left out

- TLS, certificates, sockets, tasks, locks, tokens, the child process, the command line and the discovery of `.env` files: input and output only.
- HMAC, ChaCha20, random generation, memory locking and zeroizing: they are the abstractions named above.
- Credential patterns and entropy heuristics: a parameter that yields matches. `select_longest_non_overlapping_matches` is another copy of the greedy choice.
- Statistics, reports, logging, the payload tap, SQLite, backups and file walking: no part in the results proved.
- Placeholder guidance and the rewriting of HTTP headers: many cases, each settled by reading it.
- Field-by-field restoration of JSON in events and WebSocket messages: the pending text may move between fields, so there is no clean statement about one field. `Sse` and `WsRelay` take the rewriting of an event or a message as a parameter.
- The WebSocket copy of the hold-back restorer, which is rebuilt on a version change and never finished: the properties are proved of the copy in src/proxy/server.rs. The relay of upstream frames (src/proxy/websocket.rs:132-176) is the machine of `WsRelay` with a restoring rewriter.
- Parsing, printing and number syntax of JSON: a tree that keeps every byte, with atoms known only to hold no structural byte. The field policy is part of the rewriter, which sees the path.
- JsonTree.TreeSanitizer.SanitizeValue: does not go through the object cache at cacheable paths, whose entries are two steps of `CacheTrace`, and takes members in the order of the text, with duplicates, where a JSON map may sort and merge them.
- UTF-8 validation outside chunk sizes: texts are bytes, and every search is for ASCII patterns.
- Cache.RedactionCache.LookupObject: the closure between lookup and store is left to the caller, so an object's sanitizing is two steps with any number of strings between them.
- Cache.RedactionCache.Evict: a separate method for the loop at the end of the insert; the statistics it counts are not modelled.
- ChunkCodec.ParseChunkLen: only ASCII white space is trimmed from a size line, because no other can be written; Unicode white space in an upstream's size line is not modelled.
- ChunkRelay.RelayDecodes: speaks about outputs no longer than the greatest machine word, which no buffer of the program exceeds.
- WsRelay.ClientRelay.RelayClient: is the client's side alone. The program waits for both sides at once and gives up a half-read frame, with its bytes, when the other side comes first, so this and the theorems from bytes hold when no read is given up with bytes in hand; `RunWithLosses` says what happens otherwise. The interleaving of the two sides is not modelled.
- WsRelay.RelayOfBytes: as for `RelayClient`, no read is given up midway.
- WsRelay.RelayEndToEnd: no read is given up midway, and it takes relayed payloads within the limit that a reader accepts; the relay itself does not bound what rewriting makes of a text.
- WsFrame.WriteFrame: the mask key is a parameter, as it is drawn at random.
- Conversation.RandomAscii: the draws are a parameter; the array that is filled in place is built as a sequence.
- DirectiveText.ReplaceUserSecretDirectives: the matches of credential patterns that are registered after it, and the second pass they cause, are not modelled.
- Window.LocalWindowScan: sufficient, like `TransitiveWindowScan`, and neither is necessary: a chain across an edge does no harm when both scans happen to choose alike in it. The exact condition is that of `WindowScanAgrees`, which compares the choices themselves.
- Span.SelectLongestNonOverlapping: stands also for `select_replacement_spans` (src/sanitize.rs:859-884), the same order and the same greedy pass over spans without placeholders; sorting is a function, not the library's in-place sort.
