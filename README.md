# Query-string synchronisation engine of `sveltekit-search-params`

This project models the engine behind `queryParameters` in Dafny:

- **Writes and navigation.** Writes to the proxy become batched updates of the URL query string. A zero-delay timer flushes the batch. Per-key debounce timers can delay a navigation. The `goto` navigation carries the result.
- **Overrides.** An override store makes each write visible at once. A successful navigation resets the override.
- **Derived values.** Each registered key has a derived value. It decodes the page query, applies the key's default, and passes an equality gate (`old_values`). That gate gives back the previous value when the new one counts as the same.
- **Nested writes.** The root navigator turns a write to a nested property into a write of a modified copy of the whole top-level value.
- **The proxy traps.** The proxy's `get`, `set`, `has` and `toJSON` rules.

The model is split into modules:

- `JsValues` (`values.dfy`): JavaScript values, property reads and strict-mode property writes on objects and arrays, and the nested write of the root navigator. It also holds the JSON-text view used by the default comparison.
- `SearchQuery` (`query.dfy`): `URLSearchParams` as a list of name/value pairs. It covers `get`, `set` and `delete`, and the stable sort by UTF-16 code units. It also covers the `application/x-www-form-urlencoded` serialization used for the navigation target, and its inverse.
- `Codecs` (`codecs.dfy`): codecs and the registry, `DEFAULT_ENCODER_DECODER`, `should_default`, `is_complex_equal`, and one recomputation of a key's derived value.
- `Engine` (`engine.dfy`): the batch and what a flush computes, the navigation target, and the `has` / nested `get` / `toJSON` helpers. The class `Engine.Engine` holds the state that `do_navigate` and the proxy update in place:
  - overrides and `old_values`;
  - the batch and its flush timer;
  - the debounce timers;
  - the navigations whose `goto` has not settled.
- `Scenarios` (`scenarios.dfy`): typical runs of the engine, each proved end to end:
  - two writes in one turn;
  - debounced writes;
  - `push` on an array;
  - defaults on the client and on the server;
  - removal of a key;
  - a failed navigation;
  - a nested write.

Time and asynchrony are events that the caller fires in event-loop order:
- `FlushBatch` is the batch timer firing;
- `FireDebounce` is a debounce timer firing;
- `NavigationDone` is a `goto` promise settling.

`window.location.search`, `window.location.hash` and the page store's query come in as parameters where the code reads them.

Two behaviours of the code that the model keeps as they are:
- A flush applies the batch to `window.location.search` as it was read when the last write happened (line 118), not to the query at flush time.
- A nested proxy's `get` returns the reflected value itself (lines 208-211) and does not wrap it in a further proxy.

## Model

| member | source | states |
|---|---|---|
| JsValues.NatToString | src/lib/sveltekit-search-params.svelte.ts:169 | the decimal text of an index is non-empty, all digits, and starts with '0' only for zero |
| JsValues.DigitsOfNat | src/lib/sveltekit-search-params.svelte.ts:169 | reading the decimal text of `n` gives `n` back |
| JsValues.NatOfDigits | src/lib/sveltekit-search-params.svelte.ts:169 | a canonical digit string is the decimal text of the number it denotes |
| JsValues.ArrayIndex | src/lib/sveltekit-search-params.svelte.ts:169 | a key recognised as an array index is below 2^32 - 1 and is exactly that index's decimal text |
| JsValues.IndexOfNatString | src/lib/sveltekit-search-params.svelte.ts:169 | every index below 2^32 - 1 is recognised from its own decimal text |
| JsValues.Resize | src/lib/sveltekit-search-params.svelte.ts:173 | a new array length keeps the elements below it and reads undefined (a hole) above the old length |
| JsValues.PropIndex | src/lib/sveltekit-search-params.svelte.ts:167 | property lookup finds the first property of that name, or reports that there is none |
| JsValues.PutPropThenLookup | src/lib/sveltekit-search-params.svelte.ts:169 | after `o[k] = x` on an object, `o[k]` is `x`, `k` is a property, and every other property reads as before |
| JsValues.SetProp | src/lib/sveltekit-search-params.svelte.ts:169 | strict-mode `v[key] = x`: objects gain or overwrite the property, arrays take an index or a new `length`, and a primitive, null or undefined throws a TypeError; its properties are proved in SetPropOnObject, SetPropAtIndex and SetPropLength |
| JsValues.SetPropOnObject | src/lib/sveltekit-search-params.svelte.ts:169 | assigning an object property never throws, reads back the value, and leaves every other key unchanged |
| JsValues.SetPropAtIndex | src/lib/sveltekit-search-params.svelte.ts:169 | assigning array index `i` reads back the value, sets the length to max(length, i + 1), and leaves every other index unchanged |
| JsValues.SetPropLength | src/lib/sveltekit-search-params.svelte.ts:173-175 | assigning `length` throws a RangeError exactly for an invalid length; otherwise elements below the new length stay and the rest read undefined |
| JsValues.Walk | src/lib/sveltekit-search-params.svelte.ts:165-168 | the walk down the path, which throws a TypeError on reaching null or undefined before the last piece; SetInShape ties it to the nested write |
| JsValues.SetIn | src/lib/sveltekit-search-params.svelte.ts:164-169 | the whole tree after the nested assignment, or the exception that stops it; its shape is proved in SetInShape and SetInBelowPrimitive, and AssignAtPath computes it |
| JsValues.SetInBelowPrimitive | src/lib/sveltekit-search-params.svelte.ts:166-169 | a nested write starting from a primitive, null or undefined always throws |
| JsValues.SetInShape | src/lib/sveltekit-search-params.svelte.ts:164-169 | the nested write succeeds iff the walk along the path reaches a container that accepts the key; walking the result then reaches that container with the key assigned; and every other top-level property is unchanged |
| JsValues.AssignAtPath | src/lib/sveltekit-search-params.svelte.ts:165-169 | the walk loop followed by the assignment gives exactly the tree, or the exception, that the nested write specifies |
| JsValues.SpineThrows | src/lib/sveltekit-search-params.svelte.ts:166-167 | meeting null or undefined part-way down the path makes the whole write throw a TypeError |
| JsValues.NormalizeIsJsonData | src/lib/sveltekit-search-params.svelte.ts:25 | what JSON text keeps of a value holds no undefined anywhere, and a value already free of undefined is kept exactly |
| JsValues.NormalizeIdempotent | src/lib/sveltekit-search-params.svelte.ts:25 | the JSON round trip of a JSON round trip is the first round trip |
| SearchQuery.Entries | src/lib/sveltekit-search-params.svelte.ts:243 | the entries selected for a name all carry that name |
| SearchQuery.Get | src/lib/sveltekit-search-params.svelte.ts:243 | `searchParams.get(n)`; GetIsFirstEntry proves it reads the first pair of the name |
| SearchQuery.Delete | src/lib/sveltekit-search-params.svelte.ts:104 | `query.delete(n)`; DeleteEffect and DeleteCommutes give its effect |
| SearchQuery.Set | src/lib/sveltekit-search-params.svelte.ts:112 | `query.set(n, v)`; SetEffect and SetIdempotent give its effect |
| SearchQuery.GetIsFirstEntry | src/lib/sveltekit-search-params.svelte.ts:243 | `searchParams.get(n)` is the value of the first pair named `n`, or null when there is none |
| SearchQuery.DeleteEffect | src/lib/sveltekit-search-params.svelte.ts:104 | after `delete(n)` no pair is named `n`, and the pairs of every other name are as they were |
| SearchQuery.DeleteCommutes | src/lib/sveltekit-search-params.svelte.ts:103-110 | deleting two names commutes, and deleting a name twice is deleting it once |
| SearchQuery.SetEffect | src/lib/sveltekit-search-params.svelte.ts:112 | after `set(n, v)` the name `n` has exactly the one pair `(n, v)`, and apart from `n` the list is what it was, in the same order |
| SearchQuery.SetIdempotent | src/lib/sveltekit-search-params.svelte.ts:112 | setting the same pair twice is setting it once |
| SearchQuery.RankInjective | src/lib/sveltekit-search-params.svelte.ts:127 | two characters with the same position in code-unit order are the same character |
| SearchQuery.CodeUnitLessIrreflexive | src/lib/sveltekit-search-params.svelte.ts:127 | no name sorts before itself |
| SearchQuery.CodeUnitLessTotal | src/lib/sveltekit-search-params.svelte.ts:127 | of two different names, one sorts before the other |
| SearchQuery.CodeUnitLessTransitive | src/lib/sveltekit-search-params.svelte.ts:127 | the order on names is transitive |
| SearchQuery.InsertPermutation | src/lib/sveltekit-search-params.svelte.ts:127 | one insertion step of the sort adds exactly the one pair |
| SearchQuery.InsertEntries | src/lib/sveltekit-search-params.svelte.ts:127 | an inserted pair goes in front of the pairs of its own name and touches no other name |
| SearchQuery.InsertSorted | src/lib/sveltekit-search-params.svelte.ts:127 | an insertion step keeps a sorted list sorted |
| SearchQuery.Sort | src/lib/sveltekit-search-params.svelte.ts:127 | `query.sort()`; SortSpec proves it ordered, a permutation and stable |
| SearchQuery.SortSpec | src/lib/sveltekit-search-params.svelte.ts:126-128 | `query.sort()` leaves names in code-unit order, keeps every pair (same multiset), and is stable: each name keeps its pairs in their order |
| SearchQuery.Utf8 | src/lib/sveltekit-search-params.svelte.ts:130 | a character is written as one to four bytes |
| SearchQuery.FormEncode | src/lib/sveltekit-search-params.svelte.ts:130 | an encoded name or value never holds `&`, `=` or `#` |
| SearchQuery.Serialize | src/lib/sveltekit-search-params.svelte.ts:130 | the `${query}` text; SerializeAlphabet and SerializeRoundTrip give its alphabet and its inverse |
| SearchQuery.PercentEncodeChars | src/lib/sveltekit-search-params.svelte.ts:130 | percent-encoded bytes hold only encoded characters and start with `%` |
| SearchQuery.SerializeAlphabet | src/lib/sveltekit-search-params.svelte.ts:130 | the serialized query holds only encoded characters, `&` and `=`, so the fragment that follows it is recognisable |
| SearchQuery.IndexOf | src/lib/sveltekit-search-params.svelte.ts:130 | the position found is the first occurrence of the character, and no position is found when the character is absent |
| SearchQuery.HexRoundTrip | src/lib/sveltekit-search-params.svelte.ts:130 | a hex digit is read back as its value |
| SearchQuery.DecodePercentOfChar | src/lib/sveltekit-search-params.svelte.ts:130 | the percent-encoded UTF-8 bytes of any character decode back to that character and consume exactly its encoding |
| SearchQuery.FormRoundTrip | src/lib/sveltekit-search-params.svelte.ts:130 | decoding an encoded name or value gives it back |
| SearchQuery.PairRoundTrip | src/lib/sveltekit-search-params.svelte.ts:130 | an encoded `name=value` pair parses back to the pair |
| SearchQuery.SerializeRoundTrip | src/lib/sveltekit-search-params.svelte.ts:130 | parsing the serialized query gives back every pair in order: the target loses nothing of the query |
| Codecs.DefaultDecode | src/lib/sveltekit-search-params.svelte.ts:79 | the plain decoder gives null or a string, and a string exactly for a present, non-empty raw value |
| Codecs.DefaultEncode | src/lib/sveltekit-search-params.svelte.ts:78 | `value.toString()` of the plain codec; DefaultCodecRoundTrip and DefaultCodecNumber give what it writes |
| Codecs.DefaultCodecRoundTrip | src/lib/sveltekit-search-params.svelte.ts:77-80 | the plain codec encodes a string as itself and decodes it back, except that the empty string comes back as null (as does a missing key) |
| Codecs.DefaultCodecNumber | src/lib/sveltekit-search-params.svelte.ts:78 | an integer written with the plain codec reads back as its decimal text: a minus sign for a negative one, then digits that denote its magnitude |
| Codecs.ShouldDefault | src/lib/sveltekit-search-params.svelte.ts:305-309 | the value is null or undefined, the key has a codec rather than a flag, and the codec's default is neither null nor undefined; Derive, ApplyDefault and ServerReadWithDefaultIsDefined state what it decides |
| Codecs.JsonTextEqual | src/lib/sveltekit-search-params.svelte.ts:24-25 | `JSON.stringify(a) === JSON.stringify(b)` as equality of what the JSON text keeps; JsonTextEqualOnNull and DefaultComparisonIsEquivalence give its properties |
| Codecs.IsComplexEqual | src/lib/sveltekit-search-params.svelte.ts:21-32 | two values are "the same" only when both are object-typed (null included) |
| Codecs.JsonTextEqualOnNull | src/lib/sveltekit-search-params.svelte.ts:24-25 | the default comparison finds null the same as null and as nothing else |
| Codecs.FirstReadComparesWithNull | src/lib/sveltekit-search-params.svelte.ts:376-386 | with no `old_values` entry, an object or array is compared with null: the default comparison reports a change, and a custom `equalityFn` decides on the pair (value, null) |
| Codecs.DefaultComparisonIsEquivalence | src/lib/sveltekit-search-params.svelte.ts:24-25 | on object-typed values the default comparison is reflexive, symmetric and transitive, and a value equals its own JSON round trip |
| Codecs.Derive | src/lib/sveltekit-search-params.svelte.ts:355-392 | on the server a key that should default reads its default and stores nothing; otherwise the result is either the previous value (and the gate found the new one the same) or the new value, which is stored exactly when the gate found a change |
| Codecs.DeriveIsStable | src/lib/sveltekit-search-params.svelte.ts:376-391 | whatever the comparator, recomputing from an unchanged input gives the same value and leaves the cached entry as it was |
| Codecs.ServerReadWithDefaultIsDefined | src/lib/sveltekit-search-params.svelte.ts:359-375 | on the server a key whose codec has a default never reads as null or undefined, when its values are compared by JSON text (a custom `equalityFn` that finds a value the same as null can make the read null) |
| Engine.EmptyOptionsDefaults | src/lib/sveltekit-search-params.svelte.ts:95-99 | an empty options object means no debounce, push history, sort, and show defaults |
| Engine.LastUpdate | src/lib/sveltekit-search-params.svelte.ts:116 | the update found names the key and is the last update of the batch to name it; when none is found, no update of the batch names it |
| Engine.ApplyUpdate | src/lib/sveltekit-search-params.svelte.ts:102-115 | `to_batch` on a query: delete on null, undefined or an undefined encoding, otherwise set the encoded value; ApplyUpdateEffect and ApplyUpdateIdempotent give its effect |
| Engine.ApplyAll | src/lib/sveltekit-search-params.svelte.ts:120-122 | the batch run in insertion order; LastWriteWins gives its effect and ApplyBatch computes it |
| Engine.ApplyUpdateEffect | src/lib/sveltekit-search-params.svelte.ts:102-115 | one batched update leaves its name with exactly the entries it writes (none on null, undefined or an undefined encoding; otherwise the one encoded pair) and leaves every other name unchanged |
| Engine.ApplyUpdateIdempotent | src/lib/sveltekit-search-params.svelte.ts:102-115 | running the same update twice is running it once |
| Engine.LastWriteWins | src/lib/sveltekit-search-params.svelte.ts:116-122 | after the batch, each name holds what the batch's last update to it writes, and names the batch does not touch keep their entries; `get` reads accordingly |
| Engine.ApplyBatch | src/lib/sveltekit-search-params.svelte.ts:120-122 | the loop over the batch applies every update in insertion order |
| Engine.GotoOptionsFor | src/lib/sveltekit-search-params.svelte.ts:34-44 | both option sets keep focus and scroll, and the history entry is replaced exactly when history is not pushed |
| Engine.TargetRoundTrip | src/lib/sveltekit-search-params.svelte.ts:126-130 | the target splits back into the query (sorted when sorting is on) and the fragment, and sorting changes no name's entries |
| Engine.SplitAtFragment | src/lib/sveltekit-search-params.svelte.ts:130 | a query text free of `#`, followed by a fragment, splits at the fragment |
| Engine.Target | src/lib/sveltekit-search-params.svelte.ts:126-130 | the `goto` target `?${query}${hash}`, sorted first when sorting is on; TargetRoundTrip proves it splits back into the query and the hash |
| Engine.Launch | src/lib/sveltekit-search-params.svelte.ts:125-132 | `navigate()`: the target and the history mode; LaunchCarriesBatch and LaunchKeepsUntouched give what it carries |
| Engine.LaunchCarriesBatch | src/lib/sveltekit-search-params.svelte.ts:119-132 | a flushed batch's navigation has the writer's name and the right history mode; its target splits back into the batch result and the hash taken at write time; and it carries each name's last write, or the captured entries for untouched names |
| Engine.LaunchKeepsUntouched | src/lib/sveltekit-search-params.svelte.ts:120-128 | a navigation carries the captured query's entries for every name its batch does not touch |
| Engine.HasOnTargets | src/lib/sveltekit-search-params.svelte.ts:285-288 | among own properties, only RAW is found by `in` on the root proxy's empty target; on an array, `length` is found and an index is found exactly when it is below the length |
| Engine.NestedGet | src/lib/sveltekit-search-params.svelte.ts:208-211 | a nested proxy's read gives the plain reflected property, never a further proxy: an object's property, an array's `length` or its element at an index (undefined past the end) |
| Engine.ProxyHas | src/lib/sveltekit-search-params.svelte.ts:285-288 | the `has` trap: RAW always, otherwise the target's own properties; HasOnTargets gives it on the proxies' targets |
| Engine.StoreIn | src/lib/sveltekit-search-params.svelte.ts:390 | a recomputation changes at most its own key's `old_values` entry, to what the gate stores |
| Engine.MergeEffect | src/lib/sveltekit-search-params.svelte.ts:231-235 | the merge leaves every registered key's value alone and gives an unregistered name the string of its last pair in the live query |
| Engine.MergeUnregistered | src/lib/sveltekit-search-params.svelte.ts:231-235 | every pair of the live query whose name is not registered overwrites or adds a string property; MergeEffect and MergeOnlyRegistered give its effect |
| Engine.MergeLive | src/lib/sveltekit-search-params.svelte.ts:231-235 | the loop over the live query's pairs gives the merge of the unregistered names |
| Engine.LastValue | src/lib/sveltekit-search-params.svelte.ts:231-233 | the value found belongs to the last pair of the live query with that name; when none is found, no pair has the name |
| Engine.MergeOnlyRegistered | src/lib/sveltekit-search-params.svelte.ts:231-235 | with no unregistered name in the live query, `toJSON` is the snapshot of the registered keys |
| Engine.Engine.constructor | src/lib/sveltekit-search-params.svelte.ts:340-342 | a new instance has no overrides, no cached values, an empty batch, no timers and no navigations, and satisfies the state invariant |
| Engine.Engine.Snapshot | src/lib/sveltekit-search-params.svelte.ts:223 | the snapshot lists every key in registration order with its derived value |
| Engine.Engine.SnapshotLookup | src/lib/sveltekit-search-params.svelte.ts:223 | reading a key from the snapshot gives that key's derived value |
| Engine.Engine.CacheAfterAllOutside | src/lib/sveltekit-search-params.svelte.ts:390 | deriving some keys leaves the `old_values` entry of every other key unchanged |
| Engine.Engine.Write | src/lib/sveltekit-search-params.svelte.ts:84-118 | on the server nothing changes; on the browser the override is set, the update joins the batch, and the restarted batch timer captures this name, the search and the hash; the state invariant is kept |
| Engine.Engine.FlushBatch | src/lib/sveltekit-search-params.svelte.ts:119-147 | the batch is applied in order to the captured query and emptied; with no debounce one navigation starts, otherwise the writer's debounce timer is replaced by one holding the result; overrides are untouched |
| Engine.Engine.FireDebounce | src/lib/sveltekit-search-params.svelte.ts:140-143 | a debounce timer firing starts its navigation and disappears; nothing else changes |
| Engine.Engine.NavigationDone | src/lib/sveltekit-search-params.svelte.ts:129-134 | a settled navigation leaves the in-flight list; on success the override of its name is reset to undefined, and on failure it stays |
| Engine.Engine.DeriveKey | src/lib/sveltekit-search-params.svelte.ts:355-392 | a read returns the derived value and stores the `old_values` entry when the gate lets a change through |
| Engine.Engine.ApplyDefault | src/lib/sveltekit-search-params.svelte.ts:394-409 | when the derived value is null or undefined and the codec has a default, the default becomes the override and, with `showDefaults`, is written to the URL; otherwise nothing but the cache changes |
| Engine.Engine.Get | src/lib/sveltekit-search-params.svelte.ts:240-264 | `toJSON` gives the hook; any other key gives the derived value or else the decoded page value, and an object or array comes back as a nested proxy rooted at that key |
| Engine.Engine.Set | src/lib/sveltekit-search-params.svelte.ts:266-284 | a top-level write always reports success; on the browser it is a `do_navigate` of that key, and on the server it does nothing |
| Engine.Engine.SetNested | src/lib/sveltekit-search-params.svelte.ts:155-181 | a nested write copies the top-level value from the override (or the proxy's root) and assigns along the path; on success the whole copy is written under the top-level name, and if the assignment throws the exception is reported and nothing is written |
| Engine.Engine.ToJson | src/lib/sveltekit-search-params.svelte.ts:220-237 | `toJSON` gives the snapshot of every registered key's derived value; on the browser the live query's unregistered names are merged in as strings; the cache ends as after deriving every key |
| Engine.Engine.DeriveAll | src/lib/sveltekit-search-params.svelte.ts:223 | deriving each registered key in order builds the snapshot and leaves `old_values` as the successive recomputations leave it |
| Engine.Engine.DeriveStep | src/lib/sveltekit-search-params.svelte.ts:223 | a key's derived value does not depend on the keys derived before it, so the snapshot and the cache grow one key at a time |
| Scenarios.CarriesLast | src/lib/sveltekit-search-params.svelte.ts:116-131 | a batch of writes to one key navigates with the last write's encoding and leaves every other name as captured |
| Scenarios.FlushNow | src/lib/sveltekit-search-params.svelte.ts:119-138 | with no debounce, a flush starts exactly one navigation, carrying the last write to the key and the captured entries of every other name |
| Scenarios.WriteAndArm | src/lib/sveltekit-search-params.svelte.ts:137-143 | with `debounceHistory` set, a write and its flush arm the key's debounce timer with the result, replacing any earlier timer; nothing navigates |
| Scenarios.FireNow | src/lib/sveltekit-search-params.svelte.ts:140-142 | a debounce timer firing navigates with the last write it was armed with |
| Scenarios.SameTurnWritesCoalesce | src/lib/sveltekit-search-params.svelte.ts:116-131 | two writes to one key in one turn give one navigation, which pushes history and carries the second value |
| Scenarios.DebouncedWritesCoalesce | src/lib/sveltekit-search-params.svelte.ts:123-143 | a second debounced write before the timer fires cancels the first: one navigation, carrying the second value |
| Scenarios.DebouncedKeysNavigateSeparately | src/lib/sveltekit-search-params.svelte.ts:118-142 | debounced writes to two keys in different turns give two navigations, and the later one does not carry the earlier key's write |
| Scenarios.EqualityGateKeepsValue | src/lib/sveltekit-search-params.svelte.ts:378-388 | with a custom `equalityFn`, a recomputed value that compares equal reads back as the first value |
| Scenarios.ArrayPushNavigatesOnce | src/lib/sveltekit-search-params.svelte.ts:169-175 | `push` on an array-valued key reads back with both elements and gives one navigation carrying the encoded array |
| Scenarios.SetThenRead | src/lib/sveltekit-search-params.svelte.ts:376-391 | the first write of an object or array to a key reads back as a nested proxy over that value, which is stored as the key's `old_values` entry |
| Scenarios.PushB | src/lib/sveltekit-search-params.svelte.ts:169-175 | the index write and then the `length` write of a push each add the whole new array to the batch, and the next read holds both elements |
| Scenarios.SetLengthThenRead | src/lib/sveltekit-search-params.svelte.ts:173-175 | the `length` write of a push writes the array unchanged, and the next read holds the pushed element |
| Scenarios.AssignIndexOne | src/lib/sveltekit-search-params.svelte.ts:169 | scenario step: assigning index 1 of a one-element array appends |
| Scenarios.LengthKeepsArray | src/lib/sveltekit-search-params.svelte.ts:173-175 | scenario step: setting `length` to the current length changes nothing |
| Scenarios.PushedDiffers | src/lib/sveltekit-search-params.svelte.ts:378-386 | scenario step: the pushed array is a change for the default comparison |
| Scenarios.DefaultMaterializes | src/lib/sveltekit-search-params.svelte.ts:394-409 | a key with a default and no URL entry reads as the default; with `showDefaults` the default is written to the URL, and without it nothing navigates |
| Scenarios.DefaultThenRead | src/lib/sveltekit-search-params.svelte.ts:394-409 | the key's effect makes the default its override (and queues a write of it with `showDefaults`), and the next read gives the default |
| Scenarios.ServerReadsDefault | src/lib/sveltekit-search-params.svelte.ts:359-375 | on the server the key reads as its default and nothing is queued |
| Scenarios.RemovalDeletesKey | src/lib/sveltekit-search-params.svelte.ts:103-104 | writing undefined keeps the URL's value readable until navigation; the target holds no entry for the key; after navigation the key reads null |
| Scenarios.FailedNavigationKeepsOverride | src/lib/sveltekit-search-params.svelte.ts:129-134 | a navigation that fails leaves the override, so the key keeps reading the written value |
| Scenarios.NestedWriteReadsBack | src/lib/sveltekit-search-params.svelte.ts:164-169 | a nested property write on an object-valued key reads back with the new property beside the old one |
| Scenarios.AddColorThenRead | src/lib/sveltekit-search-params.svelte.ts:164-170 | the nested write goes through the root navigator and the next read gives the extended object |
| Scenarios.ColorAdded | src/lib/sveltekit-search-params.svelte.ts:169 | scenario step: the assignment appends the property, the result is a change for the gate, and both properties read back |

## Left out

- One `Engine.Engine` object holds both the module-level batch state (`batched_updates`, `batch_timeout`, `debounced_timeouts`) and one instance's overrides and `old_values`. Several `queryParameters` instances sharing one batch are not modelled.
- Real time, the timers' delays and `async`/`await` are not modelled. Timer firings and `goto` settling are the events `FlushBatch`, `FireDebounce` and `NavigationDone`, fired in whatever order the event loop would.
- `window.location`, the page store and `goto` itself come in as parameters or are left to the caller. A started `goto` is a `Navigation` record.
- `Engine.Engine.FlushBatch`: the `if (browser)` guard inside the timer callback (line 124) is always true there. A timer is only armed on the browser.
- `Engine.Engine.FlushBatch`: the debounce map keeps only timers that have not fired. Clearing the id of a timer that has already fired does nothing in the code, which gives the same behaviour.
- `Codecs.DefaultEncode`: `value.toString()` on null or undefined throws in the code. The model returns None instead. The engine never calls an encoder on those two values (line 103).
- `Codecs.IsComplexEqual`: a custom `equalityFn` is a total function. An `equalityFn` that throws is not modelled. Its declared type (`src/lib/types.ts:5-7`) accepts `T | null`, so it is also called with null on a key's first read.
- `JsValues.SetProp`: these are not modelled:
  - prototype properties;
  - accessors and non-writable or frozen properties;
  - named (non-index) properties on arrays;
  - the ordering of integer-like keys on plain objects;
  - the difference between an array hole and an explicit undefined;
  - ToNumber conversion of a non-number assigned to `length`.
- `Engine.Engine.Get`: these are not modelled:
  - symbol keys and the RAW escape hatch (line 205);
  - prototype-chain names that go to the cache object (lines 215-217).
- `Engine.Engine.SetNested`: these are not modelled:
  - `structuredClone` and `$state.snapshot`, whose copies are plain values here;
  - aliasing, and in-place mutation of a raw value returned by a nested `get`, which in the code changes that object without navigating.
- Engine.HasOnTargets: `Reflect.has` also finds names on the prototype chain (`toString` on the root proxy, `push` on an array). The model's `has` knows only own properties.
- Engine.ProxyHas: prototype-chain names are not modelled, as for HasOnTargets.
- Codecs.Derive: the gate returns the `$state.snapshot` copy stored in `old_values` (line 390), a different object from the value read. Values here have no identity, so reference equality between reads is not modelled; only equality of values is.
- `Engine.MergeUnregistered`: it tests `key in cache` against the registry. The prototype names of the cache object are not modelled.
- Numbers are integers, and strings are sequences of Unicode scalar values (`char`). Lone surrogates and floating-point numbers are not modelled.
- The Svelte runes are not modelled: the `$derived` memoisation, `$effect.pre` scheduling and `$state` reactivity. A read recomputes the derived value. The effect is the method `ApplyDefault`.
- The JSON and lz-string codecs (`src/lib/ssp/`) are not part of this model. Codecs are parameters of the registry.
