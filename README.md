# lru-ttl-cache in Dafny

A model of the in-memory cache of lru-ttl-cache, with proofs about it. The cache
keeps a `Map` from keys to nodes. Temporary nodes sit on a doubly linked
recency list whose two ends are the cache object's own `_next` (most recently
used) and `_prev` (least recently used). Permanent nodes are only in the `Map`.
The cache keeps three counters:
- `_tmpSize`, the number of temporary nodes;
- `_tmpBytes`, their bytes;
- `_totalBytes`, the bytes of every node.

Writing a temporary entry evicts from the least recently used end while the
temporary count exceeds `max` or the temporary bytes exceed `maxBytes`. A
periodic sweep, `_ttlClean`, drops the run of expired entries at that end.

Modules:

- `Js` (js.dfy): JavaScript numbers as a datatype with finite values, the two
  infinities and NaN. It also holds the values an option can take, a result
  type for operations that throw, and `Number.isSafeInteger`.
- `UnitParser` (unit_parser.dfy): `parseUnit` of src/utils/unit-parser.ts. It
  covers the regular expression `^\s*([\d_.]+)\s*([KMGT]?[Bb]?)\s*$`,
  underscore stripping, the conversion of the number, and the switch over
  suffixes.
- `LruSpec` (lru_spec.dfy): the cache as an abstract value. That value is the
  entries, the recency list from head to tail, and the three counters. Each
  public operation of src/index.ts is a function on it, and the lemmas state
  what the operations promise. `Linked` is the invariant that the list holds
  exactly the temporary keys, once each. `Valid` adds that the counters agree
  with the entries.
- `Chain` (chain.dfy): a doubly linked list over an arena of node handles,
  with the cache object as the sentinel `Root` at both ends. Its lemmas show
  that unlinking a node, pushing one at the head and cutting the tail keep the
  `_next`/`_prev` pointers consistent.
- `Arena` (arena.dfy): the concrete store is the `Map`, the node arena, the
  cache's `_next`/`_prev` and the counters. `Rep` relates it to a ghost shadow
  that holds the entries, the list and the list's handles. The store-level
  rewrites of `_delete`, `_set`, `get` and `_ttlClean` are proved to represent
  the matching `LruSpec` function.
- `LruTtl` (lru_ttl.dfy): the `LRU_TTL` class of src/index.ts as a Dafny class.
  Each method makes the same updates of the store as the source's statements.
  The one change of order: `_delete` unlinks the node before it removes the
  key from the `Map`, and neither step reads what the other writes. The
  eviction loop of `_set`, the walk of `_ttlClean` and the walk of `clearTemp`
  are `while` loops. Every method is proved to change `Abstract()` exactly as
  its `LruSpec` function does.
- `CacheConfig` (cache_config.dfy): the options part of the rewritten class in
  src/cache.ts, as a Dafny class.
  - The `max`, `ttl` and `ttlResolution` setters.
  - The constructor that applies them in order.
  - The effective resolution and the expiry threshold `#expires`.

  The getters `max`, `evalMax`, `ttl`, `evalTtl`, `ttlResolution` and
  `evalTtlResolution` are the fields `maxRaw`, `max`, `ttlRaw`, `ttl`,
  `resolutionRaw` and `resolution`.

Time is a parameter `now` wherever the source reads `Date.now()`. The
`timestring` library that src/cache.ts imports as `MS` is a function parameter
`ms` of the `CacheConfig` class.

## Model

| member | source | states |
|---|---|---|
| UnitParser.SkipSpacesRun | src/utils/unit-parser.ts:8 | the scan over `\s*` takes only space characters and stops at the first other one |
| UnitParser.SkipNumCharsRun | src/utils/unit-parser.ts:8 | the scan over `[\d_.]+` takes only digits, `_` and `.` and stops at the first other character |
| UnitParser.CutParts | src/utils/unit-parser.ts:8 | the five parts the match cuts have the character classes of the five parts of the regular expression |
| UnitParser.ScanSound | src/utils/unit-parser.ts:8-17 | a successful match splits the string into lead, number, gap, suffix and trail of the expression's shape, and returns the number and the suffix as its groups |
| UnitParser.ScanComplete | src/utils/unit-parser.ts:8-17 | every string of the expression's shape is matched, with exactly its own number and suffix as the groups |
| UnitParser.CutOf | src/utils/unit-parser.ts:8 | greedy matching is exact: for a string of the expression's shape, the cut points are the part boundaries |
| UnitParser.MultiplierCoversGrammar | src/utils/unit-parser.ts:8-55 | the switch has a case for a suffix exactly when the second group of the expression can match it, so the default branch cannot be reached after a match |
| UnitParser.MultiplierClosedForm | src/utils/unit-parser.ts:20-52 | `""`, `b` and `B` multiply by 1; a unit letter alone or with `b` multiplies by 1000 to the power of its rank; a unit letter with `B` multiplies by 2 to the power of ten times its rank |
| UnitParser.StripUnderscores | src/utils/unit-parser.ts:18 | `replaceAll("_", "")` leaves no `_`, keeps every other character, is no longer than its input, and leaves a string without `_` as it is |
| UnitParser.StripUnderscoresAppend | src/utils/unit-parser.ts:18 | stripping distributes over concatenation, so the characters kept stay in their order |
| UnitParser.ToNumber | src/utils/unit-parser.ts:18 | `Number` of a string of digits and dots is never infinite, is non-negative when finite, and is the decimal value of the digits when there is no dot. It is NaN exactly for a lone `.` or for two or more dots |
| UnitParser.ToNumberDecimal | src/utils/unit-parser.ts:18 | a numeral with one dot, and a digit on at least one side of it, is its whole part plus its fraction over ten to the fraction's length |
| UnitParser.ParseUnit | src/utils/unit-parser.ts:13-57 | a number comes back unchanged; a value that is neither a number nor a string throws; a string parses exactly when the expression matches it |
| UnitParser.ParseScanned | src/utils/unit-parser.ts:16-55 | once the expression has matched, the result is the first group without underscores, read as a number, times the multiplier of the second group |
| UnitParser.ParseUnitValue | src/utils/unit-parser.ts:13-57 | every string of the expression's shape parses to its number without underscores, read as a number, times its suffix's multiplier |
| LruSpec.Remove | src/index.ts:270-286 | `_delete` takes exactly the key out of the entries, keeps `Linked`, and shortens the list by one for a temporary entry |
| LruSpec.RemoveAt | src/index.ts:270-286 | removing the i-th listed key drops position i from the list and takes one node and its bytes off the counters |
| LruSpec.RemoveValid | src/index.ts:270-286 | `_delete` keeps the list and the counters in agreement with the entries |
| LruSpec.InsertKeepsLinked | src/index.ts:157-180 | the insertion of `_set` keeps `Linked`, and a temporary insertion leaves a non-empty list |
| LruSpec.InsertValid | src/index.ts:157-180 | the insertion of `_set` keeps the counters in agreement |
| LruSpec.EvictBytesTrims | src/index.ts:185-187 | the byte loop only removes from the tail, keeps the permanent bytes, and ends with an empty list or temporary bytes within `maxBytes` |
| LruSpec.EvictBytesDrops | src/index.ts:185-187 | the byte loop takes out of the entries exactly the keys cut from the tail of the list |
| LruSpec.EvictBytesValid | src/index.ts:185-187 | the byte loop keeps the counters in agreement |
| LruSpec.CountCapSparesNewHead | src/index.ts:172-183 | after a temporary insertion, the count cap removes the old tail and never the new entry (for `max` at least 1), or nothing when the count is within `max` |
| LruSpec.EvictCountKeepsHead | src/index.ts:182-183 | the count cap keeps `Linked`, keeps the head unless it removed it, only removes, and keeps every permanent entry |
| LruSpec.EvictAfterInsert | src/index.ts:182-187 | both caps after an insertion keep `Linked`, leave the new entry at the head if it survives, keep every permanent entry and end within `maxBytes` |
| LruSpec.SetNewPlaces | src/index.ts:157-193 | `_set` stores the new entry with its creation and access time. A permanent one leaves the list and the temporary counters alone and adds its bytes to the total. A temporary one ends at the head if it survives. Other entries are unchanged or evicted, and permanent ones are never evicted |
| LruSpec.SetNewTemporary | src/index.ts:172-187 | the temporary branch of `_set`: new head if kept, temporary bytes within `maxBytes`, other entries unchanged or evicted, permanent ones kept |
| LruSpec.SetNewValid | src/index.ts:157-193 | `_set` keeps the list and the counters in agreement |
| LruSpec.SetCases | src/index.ts:138-149 | `set` of an identical item only refreshes `lastAccess`; of a different item, deletes the old one and then runs `_set`; of a new key, runs `_set` |
| LruSpec.SetSameRefreshes | src/index.ts:140-143 | an identical `set` changes only the `lastAccess` of that entry; the list and counters stay |
| LruSpec.SetReplaces | src/index.ts:138-149 | any other `set` stores the new entry, at the head when temporary and off the list when permanent, and changes no other entry |
| LruSpec.SetValid | src/index.ts:138-149 | `set` keeps the invariant |
| LruSpec.SetKeepsCountCap | src/index.ts:182-183 | when the temporary count was within `max`, it is after `set` too |
| LruSpec.SetKeepsByteCap | src/index.ts:185-187 | after a temporary `set` the temporary bytes are within `maxBytes` or the list is empty |
| LruSpec.TouchMovesToFront | src/index.ts:200-214 | a hit refreshes `lastAccess`, leaves the counters, and moves a temporary key to the head without reordering the others |
| LruSpec.TouchValid | src/index.ts:200-214 | a hit keeps the invariant |
| LruSpec.GetAgreesWithPeek | src/index.ts:196-239 | `get` without upsert returns what `peek` returns, changes no stored value, and leaves a cache missing the key as it was |
| LruSpec.GetMissingCallback | src/index.ts:216-218 | an upsert of a missing key with no callback throws `Missing upsert callback!` and changes nothing |
| LruSpec.GetValid | src/index.ts:196-235 | `get`, with or without upsert, keeps the invariant |
| LruSpec.PopRemovesLeastRecent | src/index.ts:242-254 | `pop` returns what `getLRU` returns and removes exactly the tail's key, or does nothing on an empty list |
| LruSpec.PopValid | src/index.ts:242-249 | `pop` keeps the invariant |
| LruSpec.DeleteRemoves | src/index.ts:262-267 | `delete` removes exactly that key, leaves every other key's value, and is a no-op for a missing key |
| LruSpec.DeleteValid | src/index.ts:262-267 | `delete` keeps the invariant |
| LruSpec.ClearAllEmpties | src/index.ts:304-308 | `clearAll` gives the empty cache, which satisfies the invariant |
| LruSpec.ExpiredRunSpec | src/index.ts:348-356 | the walk counts the keys at the tail of the list that are expired, up to the first one that is not |
| LruSpec.SweepRemovesExpiredRun | src/index.ts:346-371 | `_ttlClean` removes exactly the run of expired keys at the tail from the list and the entries, leaves an unexpired tail, keeps `Linked` and keeps every permanent entry |
| LruSpec.SweepCases | src/index.ts:358-370 | the sweep resets the list and counters when it reaches the cache (total bytes clamped at 0), and cuts the list otherwise |
| LruSpec.SweepDrainValid | src/index.ts:358-366 | a sweep that drains the list keeps the invariant |
| LruSpec.ClearTempLeavesTemporary | src/index.ts:289-301 | `clearTemp` as written, with two or more temporary entries, leaves the most recently used one in the `Map` while the list is emptied, so `Linked` fails |
| LruSpec.ClearTempFixedValid | src/index.ts:289-301 | the corrected `clearTemp` keeps exactly the permanent entries and the invariant |
| LruSpec.SweepPartialLeavesCountStale | src/index.ts:367-370 | a sweep that stops before the cache leaves `_tmpSize` above the list's length, so the counters disagree |
| LruSpec.SweepFixedValid | src/index.ts:346-371 | the corrected sweep removes what the written one removes and keeps the counters in agreement |
| LruSpec.UpsertReturnsNothing | src/index.ts:231-235 | a synchronous upsert of a missing key returns `undefined` for every callback. The stored value is the callback's whenever the entry stays. It stays for a permanent entry, and for a temporary one on an empty cache when it alone fits both caps |
| LruSpec.GetFixedReturnsStored | src/index.ts:216-235 | the corrected upsert returns the value it stores, and throws only without a callback |
| Chain.UnlinkChained | src/index.ts:274-279 | joining a node's two neighbours, the cache standing in at either end, leaves a consistent chain of the other nodes |
| Chain.PushChained | src/index.ts:173-177 | linking a node in front of the cache's `_next` gives a consistent chain with that node at the head |
| Chain.TruncateChained | src/index.ts:368-369 | making a node the cache's `_prev`, with its `_next` set to the cache, gives a consistent chain that ends at that node |
| Arena.Detach | src/index.ts:274-279 | unlinking the i-th node of the list represents the list without position i |
| Arena.DeleteStep | src/index.ts:270-286 | the store after `_delete` represents `LruSpec.Remove` |
| Arena.AddStep | src/index.ts:157-180 | the store after the insertion of `_set` represents `LruSpec.Insert` |
| Arena.TouchStep | src/index.ts:200-214 | the store after a hit in `get` represents `LruSpec.Touch` |
| Arena.StampStep | src/index.ts:141-142 | the store after an identical `set` represents the refreshed `lastAccess` |
| Arena.WalkNext | src/index.ts:352-356 | each step of the `_ttlClean` walk takes one more expired key from the tail out of the `Map` and adds its bytes |
| Arena.WalkDone | src/index.ts:352 | the walk stops exactly after the run of expired keys at the tail |
| Arena.SweepStep | src/index.ts:346-371 | the store after `_ttlClean` represents `LruSpec.Sweep` |
| LruTtl.GetInt | src/index.ts:391-398 | the default for null or undefined; a positive safe integer or Infinity is taken as it is; anything else throws `Expected positive integer for: <attr>` |
| LruTtl.CapInterval | src/index.ts:110-112 | the interval ends no greater than the ttl, and is kept whenever it already was |
| LruTtl.ParseOptions | src/index.ts:76-92 | without options the limits are Infinity and an interval of 60000. With options, they are accepted exactly when every `_getInt` check passes. The limits are then `_getInt`'s results, with the interval lowered to the ttl. Otherwise the error is that of the first failing check, in the order `max`, `maxBytes`, `ttl`, `ttlInterval` |
| LruTtl.Walk | src/index.ts:348-357 | the loop ends past exactly the run of expired keys at the tail, having removed those keys from the `Map` and summed their bytes |
| LruTtl.Clean | src/index.ts:346-371 | the store after the walk and the cut represents `LruSpec.Sweep` and keeps `Linked` |
| LruTtl.Cache.constructor | src/index.ts:76-95 | an empty cache with the parsed limits and the upsert callback |
| LruTtl.Cache.Has | src/index.ts:135 | `has` holds exactly for stored keys |
| LruTtl.Cache.Size | src/index.ts:129 | `size` is the number of stored keys |
| LruTtl.Cache.Bytes | src/index.ts:124 | `bytes` is the sum of every entry's bytes while the counters agree |
| LruTtl.Cache.TmpBytes | src/index.ts:126 | `tmpBytes` is the sum of the listed entries' bytes while the counters agree |
| LruTtl.Cache.TmpSize | src/index.ts:132 | `tmpSize` is the list's length, at most the number of entries, while the counters agree |
| LruTtl.Cache.SetMax | src/index.ts:99 | the `max` setter stores what `_getInt` gives or throws and keeps the old value |
| LruTtl.Cache.SetMaxBytes | src/index.ts:102 | the same for `maxBytes` |
| LruTtl.Cache.SetTtl | src/index.ts:105 | the same for `ttl` |
| LruTtl.Cache.SetTtlInterval | src/index.ts:108-112 | the `ttlInterval` setter stores the value lowered to the ttl, or throws and keeps the old value |
| LruTtl.Cache.SetUpsertCb | src/index.ts:121 | the `upsertCb` setter stores the callback |
| LruTtl.Cache.DeleteNode | src/index.ts:270-286 | `_delete` of a stored node changes the cache as `LruSpec.Remove` |
| LruTtl.Cache.DeleteTail | src/index.ts:182-187 | deleting the cache's `_prev` removes the least recently used key |
| LruTtl.Cache.AddNode | src/index.ts:157-180 | the insertion of `_set` changes the cache as `LruSpec.Insert` |
| LruTtl.Cache.Cap | src/index.ts:182-187 | the two caps change the cache as `LruSpec.EvictCount` then `LruSpec.EvictBytes` |
| LruTtl.Cache.SetNode | src/index.ts:157-193 | `_set` changes the cache as `LruSpec.SetNew` |
| LruTtl.Cache.Stamp | src/index.ts:141-142 | an identical `set` changes only that entry's `lastAccess` |
| LruTtl.Cache.Set | src/index.ts:138-149 | `set` changes the cache as `LruSpec.Set` |
| LruTtl.Cache.SetPermanent | src/index.ts:152-154 | `setPermanent` is `set` with a permanent flag |
| LruTtl.Cache.Get | src/index.ts:196-235 | `get` changes the cache and returns as `LruSpec.Get` |
| LruTtl.Cache.Hit | src/index.ts:200-214 | a hit changes the cache as `LruSpec.Touch` |
| LruTtl.Cache.Upsert | src/index.ts:257-259 | `upsert` is `get` with upsert on |
| LruTtl.Cache.Peek | src/index.ts:237-239 | `peek` returns the stored value, or nothing for a missing key |
| LruTtl.Cache.Metadata | src/index.ts:384-386 | `getMetadata` returns the stored entry, or nothing for a missing key |
| LruTtl.Cache.LeastRecent | src/index.ts:252-254 | `getLRU` returns the value at the tail of the list |
| LruTtl.Cache.Pop | src/index.ts:242-249 | `pop` changes the cache and returns as `LruSpec.Pop` |
| LruTtl.Cache.Delete | src/index.ts:262-267 | `delete` changes the cache as `LruSpec.Delete` |
| LruTtl.Cache.ClearTemp | src/index.ts:289-301 | `clearTemp` as written changes the cache as `LruSpec.ClearTemp`, keeping the store's representation |
| LruTtl.Cache.ClearAll | src/index.ts:304-308 | `clearAll` empties the `Map`, the list and every counter, so the list again holds exactly the temporary entries, of which there are none |
| LruTtl.Cache.TtlClean | src/index.ts:346-371 | `_ttlClean` at time `now` changes the cache as `LruSpec.Sweep` |
| CacheConfig.EvalMax | src/cache.ts:74-82 | a number is refused exactly when it is at most 0, so NaN and Infinity pass. A string gives exactly what `parseUnit` gives, so it is accepted exactly when the expression matches it. Any other value throws |
| CacheConfig.MaxZeroOnlyAsString | src/cache.ts:76-80 | a `max` of 0 throws as a number but is accepted as the string `"0"`: a parsed string is not checked again |
| CacheConfig.EvalTtl | src/cache.ts:103-108 | the stored ttl is always a positive safe integer or Infinity. A number is accepted exactly when it is one. A string is accepted exactly when `MS` gives one. Anything else throws |
| CacheConfig.EvalResolution | src/cache.ts:144-152 | null and undefined unset the resolution. A string keeps whatever number `MS` gives. A number is accepted exactly when it is a positive safe integer |
| CacheConfig.EffectiveResolution | src/cache.ts:116-119 | a stored resolution no greater than the ttl is used. Otherwise the resolution is the least integer at least a tenth of the ttl, which lies from 1 to the ttl |
| CacheConfig.ThresholdWithin | src/cache.ts:121 | with a resolution from 1 to the ttl, `#expires` is a whole number from `now - ttl` to `now - 1` |
| CacheConfig.ExpiresWindow | src/cache.ts:116-121 | with no resolution set, or one of at least 1 (every number the setter accepts), `#expires` is a whole number from `now - ttl` to `now - 1` |
| CacheConfig.ThresholdDegenerate | src/cache.ts:116-121 | a resolution of 0 from `MS` makes `#expires` -Infinity, a negative one puts it after `now`, NaN makes it NaN |
| CacheConfig.DefaultTicks | src/cache.ts:116-121 | with the default resolution, `#expires` lies at most 10 ticks back, and at least 5 unless the ttl is shorter |
| CacheConfig.Cache.constructor | src/cache.ts:19-45 | the initial fields: `max` and `ttl` Infinity, no resolution, `#now` 0, `#expires` -1 |
| CacheConfig.Cache.SetMax | src/cache.ts:74-85 | the `max` setter stores the raw and the evaluated value, or throws and changes neither |
| CacheConfig.Cache.SetTtl | src/cache.ts:101-131 | the `ttl` setter stores both values. For a finite ttl it recomputes `#expires` at the resolution in force; Infinity leaves `#expires` alone. A throw changes nothing |
| CacheConfig.Cache.SetResolution | src/cache.ts:143-156 | the `ttlResolution` setter stores both values. For a finite ttl it re-runs the `ttl` setter, which replaces the raw ttl with the evaluated one and recomputes `#expires`. A throw changes nothing |
| CacheConfig.Cache.Configure | src/cache.ts:50-54 | the options are applied in the order `max`, `ttl`, `ttlResolution`, each only when given. They are accepted exactly when every given option is. Otherwise the error is that of the first refused option, and a bad `max` changes nothing |
| CacheConfig.New | src/cache.ts:49-58 | construction succeeds exactly when every given option is accepted. The cache then holds each given option and the initial value of each absent one, and its raw and evaluated options agree. Otherwise the error is that of the first refused option |

## Left out

- Timers: `setInterval`, `clearInterval` and `unref` (src/index.ts:114-116, 189-190, 365; src/cache.ts:113, 123-129) are not modelled. The sweep is a method called with the current time. The `_ttlP` and `#timerRef` fields are absent.
- `Date.now()` is the parameter `now`. `#now` of src/cache.ts is a field that nothing in that file changes.
- The asynchronous upsert: a callback returning a Promise, the placeholder entry and the re-check in the `.then` continuation (src/index.ts:220-229). The callback is a function `K -> UpsertResult<V>`; only its synchronous branch is modelled.
- `entries`, `keys`, `values`, `forEach` and `[Symbol.iterator]` (src/index.ts:311-343, 374-381). They only expose the `Map`'s order. The last three never advance their iterator and so never end.
- `set`, `setPermanent` and `delete` return `this`; the model's methods return nothing.
- Entry sizes are integers. The `bytes` of `set` and of an upsert result may be any JavaScript number, but fractional, NaN and infinite sizes are not modelled. A NaN size would make `_tmpBytes` NaN and stop the byte cap. `bytes||0` is modelled as the default for an absent size; on an integer size it changes nothing.
- Floating point: numbers are exact reals, with no IEEE rounding and no negative zero. `Number` of a string of digits, `_` and `.` is modelled for at most one dot and NaN otherwise; a numeric part such as `"25.76"` gives its exact decimal value. The multiplications by a unit are exact.
- The `timestring` library is the uninterpreted function `ms`; what it parses is not modelled.
- LruTtl.GetInt: the message omits the tail `Got: <value>`, because number-to-string conversion is not modelled.
- CacheConfig.EvalMax: the message for a number at most 0 omits the value itself, for the same reason.
- LruTtl.Cache.Set: like every `LruTtl.Cache` method that requires `Ready()`, it is not modelled on a cache whose `Map` and list disagree. Only `clearTemp` produces such a cache.
- LruTtl.Cache.constructor: requires options that `ParseOptions` accepts. A constructor that throws creates no cache; its error is the `Throws` result of `LruTtl.ParseOptions`.
- LruTtl.Cache.SetNode: requires a key the `Map` does not hold. Every caller of the private `_set` (src/index.ts:147, 221, 226, 232) ensures that.
- LruTtl.Walk: requires the store to be walkable from the tail, which the class invariant gives.
- Node objects and their `_next`/`_prev` fields are entries of an arena of handles. Each pointer rewrite of `_delete`, `_set` and `get` is a value update of the one store record, and the arena never reclaims a node. `undefined` pointers and the cache object itself are the handle `Root`.
- The walk of `_ttlClean` deletes keys from a copy of the `Map` that is stored back after the loop; the source deletes from the live `Map`. No other code runs in between, so the outcome is the same.
- The limits `max`, `maxBytes`, `ttl` and `ttlInterval` of src/index.ts are kept valid by a separate predicate `Limited()`. Lowering `max` or `maxBytes` evicts nothing (src/index.ts:99, 102), so the count and byte caps are only claimed for a `set`.
- The list is not claimed to be sorted by `lastAccess`: an identical `set` refreshes `lastAccess` without moving the node (src/index.ts:141-143).
- In src/cache.ts, the list fields `_after` and `_before`, `#map`, the four count and weight fields, and the `onUpsert` option of the constructor are not modelled. No code in that file reads them, and the class has no `onUpsert` accessor. `#ttlCleaner` is referenced but not defined there.
- Several tests use APIs that the code does not have: `tempLength`, `permanentLength`, `clearPermanent`, `count`, `tempCount`, and a computed `evalTtlResolution`. They are not part of this model.
- src/types.ts (type declarations only), the build scripts, the benchmarks and the tests are not part of this model.

## Findings

| source | as written | input that shows it | evidently intended | confidence | as-written member | corrected member |
|---|---|---|---|---|---|---|
| src/index.ts:289-301 | `clearTemp` walks from `_prev` along `_next`, which from the tail leads straight back to the cache, so only the least recently used key leaves the `Map` while the list and counters are reset | a cache with two temporary entries: after `clearTemp` the more recent one is still in the `Map` but on no list | every temporary key leaves the `Map`, and the permanent entries and their bytes stay | not executed | LruSpec.ClearTempLeavesTemporary | LruSpec.ClearTempFixedValid |
| src/index.ts:367-370 | a sweep that stops before the cache cuts the list but does not lower `_tmpSize`, `_tmpBytes` or `_totalBytes` | three temporary entries, the oldest one expired: after `_ttlClean`, `_tmpSize` is 3 with two entries left | the counters drop by the removed entries, as in `_delete` | not executed | LruSpec.SweepPartialLeavesCountStale | LruSpec.SweepFixedValid |
| src/index.ts:231-235 | the synchronous upsert branch stores the callback's value but has no `return`, so `get(key, true)` and `upsert(key)` give `undefined` | on an empty cache, `upsert(k)` with a callback returning `{value: 1}` returns `undefined` while `peek(k)` is 1 | the stored value is returned, as the Promise branch does | not executed | LruSpec.UpsertReturnsNothing | LruSpec.GetFixedReturnsStored |
