# Model and proofs for the redaction gateway

The gateway replaces detected spans of a request by indexed placeholders such as `[IP_0]`, remembers
the originals in a mapping, and puts them back into the answer, as a whole body or event by event in
a stream of server-sent events. This project models that logic in Dafny and proves what it is for.

* `ByteText`, `Restore`, `Replacer`: texts as byte sequences, the order-free meaning of a mapping,
  and Go's multi-pattern replacer run over a map in random order.
* `Placeholders`, `Sorting`, `Spans`, `Redaction`, `RoundTrip`: building placeholders, choosing
  spans, allocating and rebuilding, and the way back. The detectors are an arbitrary list of spans.
* `Streaming`, `Echo`, `Utf8`: one stream restored chunk by chunk with a pending suffix that has
  been restored before and will be restored again.
* `EventStream`, `Sse`, `Deltas`, `StreamKeys`, `SseRestorer`, `SseStream`, `ClientView`,
  `Dispatch`, `HitCount`, `LawfulLibrary`: the restorer object over any number of interleaved
  streams, the loop around it, what a client reads, and that the assumptions about the JSON
  functions can be met.
* `Json`, `ProtectedJson`, `ProtectedValues`, `ByteRanges`, `Protection`, `RequestBody`: JSON texts
  as syntax trees, the byte search for identifiers that must not be redacted, and the filtering of a
  redaction.
* `DecodedJson`, `RestoreJson`, `TreeCounts`, `SessionSearch`: decoded JSON, its restoration and
  counting, and the search for a session id.
* `Bypass`, `Store`, `Luhn`: the bounded session table, the store with time limits under arbitrary
  interleavings of threads, and the check-digit test.
* `Limits`: inputs on which the unconditional forms of three properties fail.

Where Go's behaviour is random or belongs to a library, it is quantified over: iteration orders of
maps are picked arbitrarily, ties in unstable sorts come out in any order, clocks and random ids are
parameters, and the predicates for identifiers and session ids are arbitrary functions. JSON
decoding and encoding and `strings.TrimSpace` are parameters of the streaming modules;
`ClientView.Lawful` lists what is assumed of them: encoding a UTF-8 object of at most 10000 nested
containers gives one line that decodes to the same object, and decoding only yields such objects.
JSON `null` decodes to an empty object there, as it does in the program, which therefore answers
`{}`.

Four properties one might expect hold only under a condition. Each has its exact condition and a
failing input:

* Streaming equals restoring at once, in text and in replacements, if and only if no original can be
  laid over a key so that both agree and the original ends at most `keepBytes` behind the key's
  start (`Streaming.StreamingExactly`, `Limits.StreamingCanFail`). Inert originals always satisfy
  it.
* Redacting and restoring replaces just the inserted placeholders if and only if no key of the
  mapping occurs in the text between the entities (`RoundTrip.RoundTripExactly`,
  `Limits.RoundTripCanFail`).
* Every detected span is redacted wholly, as part of one entity, if and only if any two spans that
  share a byte lie together inside some span (`Spans.WhollyKeptExactly`); none of its bytes stays in
  the text if and only if, wherever a span reaches beyond a kept one, another span starts at the end
  of the kept one (`Spans.BytesKeptExactly`). `Limits.TailCanStay` is an input for neither.
* The iteration order of a mapping is invisible if and only if no key is a prefix of another
  (`Replacer.OrderFreeExactly`; `Replacer.OrderShows` makes a failing input from any two such keys).

The statements about whole streams of events ask, beyond that: lines that end with LF or CR LF, no
byte order mark in front and a blank line after the last event (`SseStream.Proper`); and that
restoring a data line does not make it something else (`ClientView.Tame`: the type of a delta is one
line, that of any other payload with a delta field holds no placeholder, restored text is one line
and no delta).

## Model

| member | source | states |
|---|---|---|
| `Restore.OccurrencesDisjoint` | filter/filter.go:199-204 | Two occurrences of generated placeholders in any text are the same occurrence or do not overlap: brackets stand only at their two ends. |
| `Restore.RestoredSplit` | filter/filter.go:146-155 | Cutting a text where no placeholder is cut restores, and counts, the two halves independently. |
| `Restore.HitsAreCounts` | internal/gateway/gateway.go:1536-1550 | For every placeholder, what `strings.Count` counts is the number of replacements restoring makes, although the counts are taken key by key. |
| `Restore.CleanIffNoHits` | filter/filter.go:146-155 | Nothing is replaced if and only if no placeholder occurs. |
| `Replacer.RestoreText` | filter/filter.go:146-155 | The pairs are collected in some iteration order of the map and run through a leftmost, argument-order replacer; for placeholder-shaped keys the result does not depend on that order. |
| `Replacer.ReplaceIsRestored` | filter/filter.go:146-155 | `strings.NewReplacer` in any argument order, empty old strings included, agrees with the order-free meaning of the mapping on shaped keys. |
| `Replacer.OrderFreeExactly` | filter/filter.go:146-155 | The map's random iteration order never shows, for any originals and any text, if and only if no key is a prefix of another. |
| `Replacer.ShapedIsPrefixFree` | filter/filter.go:199-204 | Placeholder-shaped keys are never prefixes of one another. |
| `Placeholders.DecimalRoundTrip` | filter/filter.go:199-204 | Decimal printing of the index can be read back, so it is injective, and consists of digits. |
| `Placeholders.PlaceholderShaped` | filter/filter.go:199-204 | A placeholder built from a fitting label has brackets at its two ends only, and a character starts behind the first. |
| `Placeholders.PlaceholderPrinted` | filter/filter.go:199-204 | The label up to its closing bracket, an underscore, the index in decimal digits without leading zero, and the bracket. |
| `Placeholders.PlaceholderInjective` | filter/filter.go:199-204 | A placeholder determines its label and its index. |
| `Placeholders.SeenKeyInjective` | filter/filter.go:103-143 | The NUL-separated key under which an allocated original is remembered determines label and original. |
| `Spans.MergeSpans` | filter/filter.go:208-230 | The loop filters, sorts and selects; the result is the leftmost-longest choice, and of equal intervals the one reported first; every span with 0 <= start < end, however long, has its first byte in it. |
| `Spans.MergedIsLeftmostLongest` | filter/filter.go:208-230 | Every kept span starts first, and is the longest to start there, among those that start behind the one kept before; nothing else is kept and nothing is missed. |
| `Spans.FirstByteCovered` | filter/filter.go:208-230 | The first byte of every valid span, kept or dropped, is covered by a kept one. |
| `Spans.ChoiceUnique` | filter/filter.go:208-230 | Leftmost-longest determines the chosen intervals. |
| `Spans.MergeIgnoresOrder` | filter/filter.go:208-230 | The chosen intervals do not depend on the order in which the detectors report. |
| `Spans.WhollyKeptExactly` | filter/filter.go:208-230 | Every valid span is redacted wholly, as part of one entity, if and only if any two valid spans that share a byte lie together inside some valid span of the input. |
| `Spans.BytesKeptExactly` | filter/filter.go:208-230 | No byte of any valid span stays in the text if and only if, wherever a valid span reaches beyond a kept one, another valid span starts at that kept one's end. |
| `Limits.TailCanStay` | filter/filter.go:208-230 | The input at which both conditions fail: of two overlapping spans the second one's last byte is in no kept span. |
| `Redaction.Redact` | filter/filter.go:75-99 | The entities are the merged spans with their texts, and the gaps with the label of every span in its place concatenate to the redacted text. |
| `Redaction.RedactReversible` | filter/filter.go:103-143 | For every in-bounds span list: the entities are the merged spans, the text is rebuilt around their placeholders, and the mapping sends exactly the used placeholders to the originals. |
| `Redaction.ReplaceKept` | filter/filter.go:103-143 | The allocation loop with its `seen`, `counters` and `mapping` tables keeps all of this at every iteration. |
| `Redaction.AllocatedInjective` | filter/filter.go:112-130 | Two spans share a placeholder if and only if they have the same label and the same original. |
| `Redaction.AllocatedExactly` | filter/filter.go:112-130 | A placeholder, byte by byte: its label up to the bracket, an underscore, in decimal the number of different originals with this label before this one first appears, and the bracket. |
| `Redaction.IndicesDense` | filter/filter.go:112-130 | The indices of a label are 0..n-1 in order of first appearance, with no gap. |
| `RoundTrip.RoundTripExactly` | filter/filter.go:103-155 | Restoring replaces exactly the inserted placeholders, in order, if and only if no key occurs between the entities; then the text comes back. |
| `RoundTrip.RedactThenRestore` | filter/filter.go:103-155 | `RestoreText(Redacted, Mapping)` is the text, in every map iteration order, when the text contains none of its own placeholders. |
| `Limits.RoundTripCanFail` | filter/filter.go:103-155 | A concrete text and span list, with what `RedactReversible` returns for them, of which the text contains its own placeholder and does not come back. |
| `Streaming.SplitStreamingSuffix` | internal/gateway/gateway.go:1604-1619 | The backwards loop cuts at the last character start that leaves at least `keepBytes`; prefix and suffix concatenate to the input. |
| `Streaming.FeedStep` | internal/gateway/gateway.go:1419-1428 | Although pending text has been restored already and is restored again, restoring pending plus whatever follows continues the restoration of the raw text. |
| `Streaming.StreamIsRestore` | internal/gateway/gateway.go:1419-1463 | For every chunking: emitted plus pending is the restored concatenation, the hits are its hits, and restoring what is pending once more changes nothing. |
| `Streaming.StreamingExactly` | internal/gateway/gateway.go:1419-1463 | Streaming is faithful for every chunking of every text if and only if no original, laid over a key so that they agree, ends at most `keepBytes` after the key's start. |
| `Streaming.InertStreamsFaithfully` | internal/gateway/gateway.go:1419-1463 | Non-empty, bracket-free originals that are no part of a key make every chunking faithful. |
| `Streaming.RestoreAgain` | filter/filter.go:146-155 | With inert originals restoring is idempotent, and restored text with more appended restores as the raw text with the same appended; the hits add up. |
| `Limits.StreamingCanFail` | internal/gateway/gateway.go:1419-1428 | A concrete mapping and two chunks for which streaming replaces one key too many. |
| `Echo.EchoExactly` | internal/gateway/gateway.go:1419-1463 | Streaming a redacted text back returns the original, each placeholder replaced once, for every chunking, if and only if wherever the text itself contains a key some entity covers the key's last byte and ends more than `keepBytes` after its first. |
| `Echo.RedactionEchoes` | filter/filter.go:103-155 | From `RedactReversible` to the stream: if the text contains none of its own placeholders its echo returns it for every chunking; nothing is asked of the originals. |
| `Utf8.ValidCut` | internal/gateway/gateway.go:1604-1619 | A valid text cut at a character start gives two valid texts. |
| `Utf8.RestoredIsUtf8` | filter/filter.go:146-155 | Byte-wise restoring of valid text with valid keys and originals gives valid text. |
| `Utf8.StreamIsUtf8` | internal/gateway/gateway.go:1419-1428 | In every reachable state the pending suffix is valid UTF-8 and at most `keepBytes + 3` bytes long, and the next emitted prefix and the final flush are valid too. |
| `Utf8.PlaceholderIsUtf8` | filter/filter.go:199-204 | UTF-8 labels make UTF-8 placeholders. |
| `ProtectedJson.ScanJSONStringEnd` | internal/gateway/gateway.go:741-759 | The scanner loop with its escape flag returns the end of the string, or failure at the end of the body. |
| `ProtectedJson.ProtectedJSONValueRangesForField` | internal/gateway/gateway.go:402-431 | The search loop returns what the specification of the byte search returns, and terminates on every body, JSON or not. |
| `ProtectedJson.SearchIsExact` | internal/gateway/gateway.go:402-431 | On every JSON text (a syntax tree after RFC 8259, sections 2 to 7, with its white space) the byte search finds exactly, in order, the whole string tokens in value position of the members whose name token ends with the quoted field and whose value passes the predicate. |
| `ProtectedJson.SearchSeparated` | internal/gateway/gateway.go:402-431 | On every body the ranges found are non-empty, increasing and apart, and pass the predicate. |
| `ByteRanges.MergeByteRanges` | internal/gateway/gateway.go:709-727 | The compaction into the array being read never overwrites an unread element. |
| `ByteRanges.MergeIsUnion` | internal/gateway/gateway.go:709-727 | Merged ranges are sorted, strictly separated and cover the same bytes. |
| `ByteRanges.MergeKeepsAnswers` | internal/gateway/gateway.go:797-804 | A non-empty entity touches a merged range if and only if it touches an unmerged one. |
| `ByteRanges.OverlapsProtectedRange` | internal/gateway/gateway.go:797-804 | The loop answers whether some range is touched. |
| `ProtectedValues.FoundExactly` | internal/gateway/gateway.go:402-431 | On a JSON text a range is found for a field if and only if it is the string token of the value of some member, at any depth, whose name token ends with the quoted field and whose value passes the predicate. |
| `RequestBody.RangesExactly` | internal/gateway/gateway.go:385-400 | On a JSON text a range is among those of all fields if and only if it is a value of the tree to be protected for a listed field. |
| `RequestBody.ProtectedJSONValueRangesForFields` | internal/gateway/gateway.go:385-400 | On a JSON text the merged ranges touch an interval exactly when some value of the tree to be protected for a listed field does; there are none if the body is empty or no JSON. |
| `Protection.FilterReversibleResult` | internal/gateway/gateway.go:761-795 | Exactly the entities that share no byte with a protected range survive, in order, the body is rebuilt around them, and the mapping is reduced to their placeholders with unchanged values. |
| `Protection.ProtectedKept` | internal/gateway/gateway.go:761-795 | Every protected range stands in the result byte for byte, at its offset moved by the net length change of the kept entities before it. |
| `Protection.ProtectedRestores` | internal/gateway/gateway.go:761-795 | Restoring with the reduced mapping replaces the surviving placeholders exactly when the gaps hold no key, and then returns the body. |
| `RequestBody.RedactBody` | internal/gateway/gateway.go:294-301 | Redaction followed by protection, with the early exit when nothing is protected: on a JSON body an entity that was found stays redacted if and only if it shares no byte with a value of the tree to be protected. |
| `RequestBody.IdentifiersSurvive` | internal/gateway/gateway.go:294-301 | In a JSON request every identifier of a protected field reaches the upstream byte for byte, whatever the detectors reported. |
| `Bypass.BypassSessions.Mark` | internal/gateway/gateway.go:570-583 | The table after marking is the old one with the session's time, pruned to the bound from some oldest-first listing; without a marker or an id it is unchanged. |
| `Bypass.BypassSessions.Has` | internal/gateway/gateway.go:585-599 | Found exactly when present; a hit refreshes the time and nothing else. |
| `Bypass.BypassSessions.PruneLocked` | internal/gateway/gateway.go:601-621 | The deletion loop removes exactly the excess, oldest first, in whatever order ties come out of the sort. |
| `Bypass.EvictedIsOldest` | internal/gateway/gateway.go:601-621 | With clock ties too, no evicted session is newer than a kept one, and what is kept is unchanged and within the bound. |
| `Bypass.MarkRefinesTouch` | internal/gateway/gateway.go:570-583 | With an increasing clock, marking moves the session to the end of a recency list and drops the front beyond the bound. |
| `Bypass.TableIsRecencyList` | internal/gateway/gateway.go:570-621 | At every moment of every run of mark and has the timestamp map is the bounded recency list of the touched sessions. |
| `Bypass.EvictedExactly` | internal/gateway/gateway.go:570-621 | A session is still present if and only if fewer than `max` distinct other sessions have been touched since it last was. |
| `Store.CloneMapping` | store/store.go:96-102 | The copying loop returns an equal mapping whatever order the map is visited in. |
| `Store.MemoryStore.Save` | store/store.go:47-63 | A non-positive time to live or failed randomness is an error that changes nothing; otherwise the entry is stored under the id until clock plus time to live. |
| `Store.MemoryStore.Load` | store/store.go:66-83 | Not found exactly for an unknown id, expired exactly when the expiry is not after the clock, otherwise a copy of the mapping; only an entry found expired twice is removed. |
| `Store.MemoryStore.Destroy` | store/store.go:86-94 | Removes the session, or reports that there is none and changes nothing. |
| `Store.StoreIsLatest` | store/store.go:47-94 | In every interleaving of the critical sections of any number of threads, whatever the clock does: an entry is the one last saved, and one that is missing though not destroyed is so if and only if a cleanup of that id found that very entry expired by its own clock reading, with no save of the id since. So no cleanup removes an unexpired entry, even one saved again in between. |
| `Store.LoadExactly` | store/store.go:66-83 | With a clock that never goes back a Load returns a mapping if and only if it is that of the latest save, not destroyed since, strictly before its expiry: the cleanup is invisible. |
| `Store.LoadReturnsSaved` | store/store.go:47-83 | A successful Load traces back to one Save call with that id, mapping and time to live, finished before and not destroyed since. |
| `Store.GoneForGood` | store/store.go:66-94 | With fresh ids and such a clock no Load succeeds after an expired one or after a Destroy, whatever other threads do. |
| `SessionSearch.OwnIDIsFirst` | internal/gateway/gateway.go:683-694 | An object's own id is that of the first listed field with a valid one. |
| `SessionSearch.IDAtMeans` | internal/gateway/gateway.go:683-702 | The id of an object is what the validator makes of the string under a listed field, and it makes nothing of any earlier one; there is none exactly when it makes nothing of any. |
| `SessionSearch.CodexSessionIDFromJSON` | internal/gateway/gateway.go:649-681 | A result is what the validator made of a listed string of an object at depth 12 at most, and of no earlier listed one; the empty result means that the validator accepts no listed string of any object in reach, or that the body could not be decoded. |
| `SessionSearch.CodexSessionIDFromValue` | internal/gateway/gateway.go:659-681 | Whatever order the members are visited in, the search returns one of the outcomes of the specification. |
| `SessionSearch.NothingExactly` | internal/gateway/gateway.go:659-681 | The empty result is possible if and only if no object at depth at most 12 carries a valid id. |
| `SessionSearch.FoundExactly` | internal/gateway/gateway.go:659-681 | The possible ids are exactly those of the carriers at depth at most 12 with no carrier above them and none in an earlier item of an array on the way. |
| `RestoreJson.RestoreJSONValue` | filter/filter.go:158-190 | The recursive loops over items and over members in any order compute the order-free restoration, or fail. |
| `RestoreJson.RestoredEverywhere` | filter/filter.go:158-190 | At every path: keys, lengths, numbers, booleans and nulls are kept, and every string is the restored string. |
| `RestoreJson.FailsExactly` | filter/filter.go:158-190 | The error occurs if and only if some value at some depth has no JSON type. |
| `RestoreJson.RestoreJsonAgain` | filter/filter.go:158-190 | With inert originals restoring restored JSON changes nothing. |
| `RestoreJson.CountPlaceholderHitsByKey` | internal/gateway/gateway.go:1536-1550 | The counts, taken key by key, are the multiplicities of the replacements and hold no zeros. |
| `RestoreJson.MergeCounts` | internal/gateway/gateway.go:1588-1594 | Adding counts adds the replacements they count. |
| `RestoreJson.AddPlaceholderCountsFromValue` | internal/gateway/gateway.go:1573-1586 | The totals over a whole tree, members visited in any order, are the replacements `RestoreJSON` makes in it. |
| `TreeCounts.TreeHitsAreLeafHits` | internal/gateway/gateway.go:1573-1586 | The replacements counted in a tree are those in its strings, each string at each path once: the paths of all strings can be listed without repetition so that the sum over the list is what is counted. |
| `TreeCounts.OtherLineHits` | internal/gateway/gateway.go:1369-1417 | A data line without a delta adds the replacements in its text, or in the strings of its payload, and `[DONE]` none. |
| `RestoreJson.NothingLeftToCount` | internal/gateway/gateway.go:1564-1586 | In restored JSON no placeholder is counted again. |
| `Luhn.LuhnValid` | filter/pii.go:60-74 | For digits: true if and only if the sum over the positions is divisible by 10, where a digit with an even number of digits behind it counts as itself and any other as twice itself, less 9 if that is more than 9. For other bytes the subtraction wraps. |
| `Luhn.OneDigitExactly` | filter/pii.go:60-74 | In an accepted number of any length, replacing one digit gives an accepted number only if it is the same digit (ISO/IEC 7812-1, annex B). |
| `Luhn.SwapExactly` | filter/pii.go:60-74 | Swapping two adjacent digits of an accepted number gives a rejected one, except for equal digits and for 0 and 9. |
| `Luhn.OneCheckDigit` | filter/pii.go:60-74 | Every prefix has exactly one digit that completes it to an accepted number. |
| `EventStream.ParseSSEField` | internal/gateway/gateway.go:1621-1634 | A line is a comment or blank, a bare name, or a name without colon, a colon, at most one stripped space and the value. |
| `EventStream.FieldRoundTrip` | internal/gateway/gateway.go:1336-1367 | A written field line is read back as its name and value, and is one line if they are. |
| `EventStream.ViewOfBlocks` | internal/gateway/gateway.go:1336-1367 | A client after section 9.2.6 of the WHATWG HTML standard that reads written events dispatches exactly their messages. |
| `SseRestorer.InspectSSEEvent` | internal/gateway/gateway.go:1478-1505 | The loop finds the name of the last event line, and whether some data line strictly decodes to a payload with a string `delta` and a type, or else the event name read so far, that ends in `.delta` or contains `_delta`, byte by byte. |
| `Deltas.IsDeltaExactly` | internal/gateway/gateway.go:1507-1509 | A type names a delta exactly when its last six bytes are `.delta` or some six bytes of it are `_delta`. |
| `Deltas.ReadExactly` | internal/gateway/gateway.go:1369-1403 | A data line is read as the text of a delta exactly when it is not `[DONE]` and decodes to a payload whose `delta` is that text and whose `type`, or if that is absent or empty the event name, names a delta; any other line is read as it is. |
| `Deltas.InspectsExactly` | internal/gateway/gateway.go:1478-1505 | The inspection finds a delta exactly when some data line is one under the name of the last event line before it. |
| `StreamKeys.SameStreamExactly` | internal/gateway/gateway.go:1511-1530 | Two deltas belong to the same stream if and only if they have the same type and the same five ids, each spelled alike in both or absent from both, when no type or id contains a vertical bar. |
| `SseRestorer.Restorer.constructor` | internal/gateway/gateway.go:1316-1334 | `keepBytes` is one less than the longest key, or 0; all tables are empty. |
| `SseRestorer.Restorer.TransformDelta` | internal/gateway/gateway.go:1419-1428 | Emits the prefix, keeps the suffix pending for this stream alone, and counts the replacements in pending plus delta. |
| `SseRestorer.Restorer.TransformData` | internal/gateway/gateway.go:1369-1417 | Of a delta only the delta is replaced, by what is emitted, and the rest becomes pending; `[DONE]` stays, text is restored, and another payload becomes one with the same paths, keys, lengths and scalars and every string restored; with remembered event and payload, and counts. |
| `SseRestorer.Restorer.FlushAll` | internal/gateway/gateway.go:1430-1463 | Every stream with something pending is flushed once, in some order, under its last event name and payload, and all pending texts become empty. |
| `SseRestorer.Restorer.ProcessEvent` | internal/gateway/gateway.go:1336-1367 | The event is preceded by a flush exactly when it is no delta event; its lines are transformed in order with everything else left as it is. |
| `SseStream.RestoreSSEStream` | internal/gateway/gateway.go:1231-1274 | Reading line by line, processing each event at its blank line, the unterminated rest and the final flush at the end of the input. |
| `LawfulLibrary.LawfulLibraryExists` | internal/gateway/gateway.go:1369-1417 | What the streaming theorems assume of the JSON functions is consistent: a prefix code of JSON values, whose injectivity is proved, meets it for any spelling of numbers. |
| `ClientView.FlushRead` | internal/gateway/gateway.go:1430-1463 | A client takes the flush of a stream for one more delta of the same stream, under the name of its last event and with its last payload but for the delta. |
| `ClientView.RunInStep` | internal/gateway/gateway.go:1336-1463 | At every moment of every run, for every stream: what the client has been told plus what restoring the pending text will add is the restored text of the segments so far, whatever follows. |
| `ClientView.ClientSees` | internal/gateway/gateway.go:1231-1463 | After any run and a flush in any order the client has been told, of every stream, exactly the segment-wise restored text, and has been shown every other message in order: `[DONE]` as it is, text restored, and a payload that decodes to one with the same paths, keys, lengths and scalars and every string restored. |
| `Dispatch.FlushingExactly` | internal/gateway/gateway.go:1478-1505 | With event names before data and decoders that agree, an event is flushed before if and only if no data line of it is a delta. |
| `Dispatch.CompleteBeforeEvent` | internal/gateway/gateway.go:1336-1367 | When a non-delta event is dispatched nothing is pending: what was written before it completes every stream's text, and the messages before it have been shown restored, path by path. |
| `SseStream.EventOnWire` | internal/gateway/gateway.go:1336-1367 | Byte by byte: a client reads `event: `, a name, a line feed, `data: `, a value and two line feeds as one event with that name and value. |
| `SseStream.LinesAgree` | internal/gateway/gateway.go:1636-1642 | Reading up to LF and trimming gives the lines of the standard when lines end with LF or CR LF. |
| `SseStream.EndToEnd` | internal/gateway/gateway.go:1231-1463 | From upstream bytes to the bytes a client reads: both statements of ClientSees, the second one path by path, hold for every proper input, every interleaving of streams and every iteration order of the maps. |
| `HitCount.HitsConserved` | internal/gateway/gateway.go:1287-1301 | The counts after a run are those of the raw text of every segment of every stream and of the other data lines: nothing is counted twice through pending text and nothing is missed, however the text is cut and interleaved. |

## Left out

- Redaction.RedactReversible: labels are asked to be bracketed words without brackets or NUL inside, as all labels of the detectors are; the branch of `indexedPlaceholder` for other labels is modelled but nothing is proved about a run that uses it.
- Streaming.StreamIsRestore: keys must have brackets at their two ends only and a character start behind the first, as generated placeholders do.
- ProtectedJson.SearchIsExact: field names are asked to be non-empty and made of lower-case letters and underscores, as all configured ones are; on bodies that are no JSON only order and separation of the ranges are stated.
- SseStream.EndToEnd: says nothing about a last event without a blank line, which the program joins with the final flush, nor about events in which a lone CR ends a line, nor about a byte order mark in front, which a client drops and the program takes for part of the first line.
- Dispatch.FlushingExactly: asks for event names before data lines; the program inspects a data line under the name read so far but transforms it under the last name.
- Spans.FirstByteCovered: of a dropped span only the first byte is sure to be redacted, by design; `Spans.WhollyKeptExactly` and `Spans.BytesKeptExactly` say exactly when all of it is.
- Bypass.TableIsRecencyList: asks for a strictly increasing clock; with ties only `Bypass.EvictedIsOldest` holds.
- Replacer.RestoreText: a mapping is one value; that a Go caller could change the map during the call is not captured.
- Streams with a placeholder split across a non-delta event: the program does not promise to restore them; the segments of `ClientView.Spoken` say what it does.
- StreamKeys.SameStreamExactly: types and ids with a vertical bar are not covered; there different ids can print alike, and share a key in the program and in the model, whose text is then stated for the shared key.
- Regular expressions, gitleaks rules, entropy and the checks around detected spans: the detectors are arbitrary span lists.
- The predicates for protected identifiers and session ids, string unquoting and `json.Valid`: parameters.
- JSON parsing and printing themselves, and whether redacted JSON is still valid: a span may cross a string boundary.
- Errors of encoding a payload and of writing to the client: the encoder is total and writing succeeds.
- Event, line, flush and byte statistics other than the placeholder counts.
- HTTP, headers, pipes, logging, request ids, hashing, configuration, generated and wrapper code.
- Mutexes: critical sections of the store are atomic steps in any interleaving; the session table's methods run under one lock and are modelled one at a time.
