# Verified model of the cache-and-load-aware routing stack

Five pieces of the repository, modelled in Dafny and proved:

- **The KV registry** (`PyDict`, `KvPool`, `EventLog`, `Chunking`, `PrefixMatch`, `PeerWalk`, `KvController`,
  `UpstreamLookup`, `CreditFacts`). `KVController` is a class over an insertion-ordered dict of holder lists.
  Its three updates refine an event log over every run. Its two read walks return what they are meant to, with
  both early exits. The stock first-holder lookup is modelled beside the patched one and the two are related.
- **The placement policy and its bridge** (`LoadAware`, `LoadCycle`, `LoadRuns`, `Bridge`, `BridgeRefresh`,
  `BridgeRuns`, `LoadAwareRouter`, `EndToEnd`). The score is over reals; the bounds on load and locality hold at every
  decision and over every run. The instance-id -> URL bridge is a state machine over restarts, lagging registrations
  and queries.
- **The exact Wilcoxon test and its order statistics** (`Ranks`, `SignCounts`, `Wilcoxon`, `OrderStats`). Midranks
  are doubled, so every rank sum is an integer.
- **The Job-log collector and its printer** (`LogLines`, `JobLog`, `LogLoss`, `LogReads`). gzip, base64 and SHA-256
  are function parameters with contracts: base64 text has no space and no underscore (section 4 of RFC 4648), packing unpacks,
  and a hash prints as 64 hex digits. Collisions are ruled out only where the statement says so, and only among
  the partial bodies of one file; a hash that is injective on all byte strings does not exist at a fixed length.
- **Coverage and counter arithmetic** (`Medians`, `Utilization`).

`Sorting`, `Sums` and `RealFacts` hold shared facts.

An awaited Controller query and the write of its answer are one step. In `LoadAwareRouter` and `BridgeRefresh` the
answer is arbitrary; in `BridgeRuns` it is the id registered at the queried URL's address. The prefix hash, the
distributed URL and the fallback route are parameters. The source's `nan` and `None` results are `None`.

## Where the code and its documentation part

- `deregister` deletes keys from the dict it is iterating. In CPython the next step of that loop raises, even after
  the last key, so a deregistration that empties any list stops there and leaves later keys as they were. The model
  follows the code; `DeregisterMeetsIntentIff` says exactly when the effect of one call is the
  documented one, and `RunRefinesIntentIff` the same for whole runs.
- `batched_p2p_lookup` uses `""` for "none yet". `PeerLookupExact` gives the exact condition under which an instance
  registered with an empty id breaks the promise of one fixed peer, and `EmptyIdOverruns` an input that does.
- The docstring of `score_endpoint` reports matches longer than the prompt. With chunk ends clamped as `process_tokens`
  clamps them, `BenefitIsTrueFraction` shows that the guard never acts.
- The load bound is the score's. Requests whose lookup is empty take the session-hash or QPS route, which does not
  keep it (`SessionFallbackEscapesBound`); `AlwaysBalancedIff` says exactly which mixed runs stay within it.
- The bridge is meant to be refreshed once per fleet change. `QueriesAgainIff` says exactly when it is not: a holder
  that no endpoint answers to any more (`UnknownHolderStaysStale`), or an endpoint left unmapped because another one
  behind the same address answers its id (`SharedAddressStaysStale`). The query names an address without its port.
- For the same reason the bridge names the last reported ids over every run only if no two engines share an address
  (`AlwaysReportedIffSeparate`, `SharedAddressTakesId`).
- `counter_rate` is documented to lose only the counts before a reset. It also loses the regrowth up to the value
  sampled before the reset (`GrowthIsTotalMinusMissed`, `OnlyPreResetCountsMissedIff`, `RegrowthIsMissed`).
- Coverage is documented to charge every hole. Since the cadence is inferred from the surviving samples, the hole must
  exceed two of their own median gaps: two survivors can score 1.0 (`TwoSurvivorsScoreFullIff`).
- The patched lookup can make `kvaware` fall back where the stock one did not, when the first holder has a hole
  (`KvawareKeepsCacheRouteIff`, `HoleMovesKvaware`).

## Model

| member | source | states |
|---|---|---|
| KvPool.DeregisterLoopStep | patches/lmcache/v1/cache_controller/controllers/kv_controller.py:145-152 | one turn of the `deregister` loop: the filtered list replaces the old one; exactly at the first key it empties the key is deleted and the loop is over |
| KvPool.DeregisterCompletesIff | patches/lmcache/v1/cache_controller/controllers/kv_controller.py:145-152 | `deregister` gets through the dict exactly when it empties no list, and then it skips no key |
| KvPool.DeregisteredHolders | patches/lmcache/v1/cache_controller/controllers/kv_controller.py:145-152 | the list left under every key: the worker's entries are gone, except under keys after the first emptied one, which are untouched |
| KvPool.DeregisterMeetsIntentIff | patches/lmcache/v1/cache_controller/controllers/kv_controller.py:141-152 | `deregister` removes all of a worker's chunks if and only if no key past the first emptied one lists that worker |
| KvPool.DeregisterLeavesPhantom | patches/lmcache/v1/cache_controller/controllers/kv_controller.py:145-152 | a worker that alone holds two chunks: its deregistration raises and leaves the second chunk listed |
| KvPool.DeregisteredWellformed | patches/lmcache/v1/cache_controller/controllers/kv_controller.py:145-152 | no key is ever left mapped to an empty list, whether or not the loop raises |
| KvPool.EvictedKeysKeepOrder | patches/lmcache/v1/cache_controller/controllers/kv_controller.py:100-103 | an evict takes its key out of the dict exactly when it drops the key's last entry, and leaves the other keys in their order |
| EventLog.LiveIff | patches/lmcache/v1/cache_controller/controllers/kv_controller.py:66-103 | an entry is live exactly when some admit of it has no later removing event |
| EventLog.LiveAppend | patches/lmcache/v1/cache_controller/controllers/kv_controller.py:66-103 | what one more event does to a key's live entries: it filters them in place, and an admit goes to the end |
| EventLog.AdmitRefines | patches/lmcache/v1/cache_controller/controllers/kv_controller.py:66-76 | an admit keeps the registry equal, key by key and in order, to the live entries of its log |
| EventLog.EvictRefines | patches/lmcache/v1/cache_controller/controllers/kv_controller.py:78-103 | so does an evict, known key or not, emptied list or not |
| EventLog.DeregisterRefines | patches/lmcache/v1/cache_controller/controllers/kv_controller.py:141-152 | so does a deregistration, with the keys a raise spared recorded in its event |
| EventLog.RunRefinesLog | patches/lmcache/v1/cache_controller/controllers/kv_controller.py:66-152 | after any sequence of calls, `kv_pool[key]` is exactly, in order, the admits with no later removal, and no key maps to an empty list |
| EventLog.CallFulfilsIff | patches/lmcache/v1/cache_controller/controllers/kv_controller.py:66-152 | on a registry that is as intended, a call leaves it as intended if and only if it is no deregistration whose worker is listed past the first key it empties |
| EventLog.RunRefinesIntentIff | patches/lmcache/v1/cache_controller/controllers/kv_controller.py:66-152 | after each call of a run the registry holds exactly the admits with no later matching evict or deregister, if and only if no deregistration of the run finds its worker listed past the first key it empties |
| KvController.KVController.Admit | patches/lmcache/v1/cache_controller/controllers/kv_controller.py:66-76 | appends the entry under its key, a new key going to the end of the dict, and keeps the registry refining its log |
| KvController.KVController.Evict | patches/lmcache/v1/cache_controller/controllers/kv_controller.py:78-103 | drops every equal entry, drops the key with its last entry, ignores an unknown key, and keeps the refinement |
| KvController.KVController.Deregister | patches/lmcache/v1/cache_controller/controllers/kv_controller.py:141-152 | leaves the registry the dict loop leaves, raises exactly when a list is emptied, and keeps the refinement either way |
| Chunking.ChunksTile | tests/test_kv_controller_lookup.py:34-41 | the chunks cut the whole prompt without gap or overlap, ends strictly increasing, the last one clamped to the prompt's length |
| Chunking.KeyStep | tests/test_kv_controller_lookup.py:38-41 | chunk i starts at i times the chunk size, ends a chunk later or at the prompt's end, and its key hashes the key before it with its own tokens |
| Chunking.KeyNamesPrefix | conformance/test_lmcache_conformance.py:141-157 | two chunk keys are equal exactly when chunk position and the whole token prefix are |
| Chunking.KeysAtDifferentDepths | tests/test_kv_controller_lookup.py:34-41 | keys at different chunk positions never collide, whatever the prompts |
| PrefixMatch.RunLengthUnique | patches/lmcache/v1/cache_controller/controllers/kv_controller.py:173-177 | a gap-free run from chunk 0 that the next chunk ends is the instance's one run length |
| PrefixMatch.FirstLocationIsFirst | patches/lmcache/v1/cache_controller/controllers/kv_controller.py:193-194 | the credited location is that of the instance's first entry in the holder list |
| PrefixMatch.Instances | patches/lmcache/v1/cache_controller/controllers/kv_controller.py:188-194 | the holders of a chunk, each once, are exactly the instances the list names |
| PrefixMatch.MatchingStep | patches/lmcache/v1/cache_controller/controllers/kv_controller.py:188-194 | one `setdefault` turn keeps the holders equal to the still-contiguous instances, each with its first location |
| PrefixMatch.ExactLayout | patches/lmcache/v1/cache_controller/controllers/kv_controller.py:162-207 | the promised answer names exactly the instances holding chunk 0, each with the location and end offset of its own run's last chunk |
| PrefixMatch.CreditCovers | patches/lmcache/v1/cache_controller/controllers/kv_controller.py:162-207 | an instance holding the first n chunks is named and credited at least their tokens |
| KvController.ExactLayoutStep | patches/lmcache/v1/cache_controller/controllers/kv_controller.py:188-201 | the loop body takes the exact answer for i chunks to the exact answer for i + 1, and `contiguous` to the instances whose run is i + 1 |
| KvController.UnmappedEndsWalk | patches/lmcache/v1/cache_controller/controllers/kv_controller.py:186-187 | stopping at an unmapped chunk loses no instance and no token |
| KvController.NoMatchEndsWalk | patches/lmcache/v1/cache_controller/controllers/kv_controller.py:195-196 | stopping at a chunk no contiguous instance holds loses no instance and no token |
| KvController.KVController.HoldersOf | patches/lmcache/v1/cache_controller/controllers/kv_controller.py:188-194 | collects exactly the contiguous instances of a holder list, first location each, in order |
| KvController.KVController.WalkChunks | patches/lmcache/v1/cache_controller/controllers/kv_controller.py:181-201 | the walk returns the exact layout of any chunk list, on any registry |
| KvController.KVController.Lookup | patches/lmcache/v1/cache_controller/controllers/kv_controller.py:162-207 | `lookup` returns every instance's longest contiguous match and nothing else |
| PeerWalk.PeerIsFirstOther | patches/lmcache/v1/cache_controller/controllers/kv_controller.py:236-242 | the chosen entry is the first in the list that is not the asker's |
| PeerWalk.WalkFixed | patches/lmcache/v1/cache_controller/controllers/kv_controller.py:246-259 | once a pair is fixed, the walk counts to exactly the end of that pair's run |
| PeerWalk.WalkUnfixed | patches/lmcache/v1/cache_controller/controllers/kv_controller.py:246-259 | while the fixed id is the empty string, the walk never compares and counts on |
| PeerWalk.PeerLookupExact | patches/lmcache/v1/cache_controller/controllers/kv_controller.py:220-265 | the walk answers the longest prefix of one fixed (instance, location) pair if and only if no empty instance id is followed by a further peer |
| PeerWalk.EmptyIdOverruns | patches/lmcache/v1/cache_controller/controllers/kv_controller.py:223-259 | an instance with an empty id and then another peer: the answer is two chunks of a peer that holds one, not one chunk of the first |
| PeerWalk.PeerRunSound | patches/lmcache/v1/cache_controller/controllers/kv_controller.py:237-242 | the named peer is never the asker and holds every chunk of the run |
| PeerWalk.PeerRunWithinCredit | patches/lmcache/v1/cache_controller/controllers/kv_controller.py:220-265 | on a prompt's own keys, the peer run never exceeds what `lookup` credits that instance |
| KvController.KVController.BatchedP2PLookup | patches/lmcache/v1/cache_controller/controllers/kv_controller.py:209-265 | returns the walk's instance, location and count, and the init URL of exactly that peer |
| UpstreamLookup.LedLast | tests/test_kv_controller_lookup.py:78-87 | a stock credit comes from the last visited chunk whose first holder is that instance |
| UpstreamLookup.SameFirstKey | tests/test_kv_controller_lookup.py:72-87 | stock and patched lookup are empty together and have the same first key |
| UpstreamLookup.CreditsOrderedIff | tests/test_kv_controller_lookup.py:72-87 | the patch keeps or raises an instance's stock credit if and only if it holds every chunk up to the last it leads |
| UpstreamLookup.UpstreamBelowPatched | tests/test_kv_controller_lookup.py:72-87 | on prefix-closed caches the stock answer names a subset and credits no more |
| UpstreamLookup.SingleInstanceSameAnswer | tests/test_kv_controller_lookup.py:72-87 | with one instance in the registry both lookups give the same answer |
| UpstreamLookup.KvawareKeepsCacheRouteIff | patches/vllm_router/routers/routing_logic.py:385-395 | the patch never makes `kvaware` newly fall back, at any prompt length and threshold, if and only if the first holder has no gap below the last chunk it leads |
| UpstreamLookup.KvawareOnPrefixClosed | patches/vllm_router/routers/routing_logic.py:385-395 | so on prefix-closed caches it never does |
| UpstreamLookup.HoleMovesKvaware | patches/vllm_router/routers/routing_logic.py:385-395 | a holder with a hole: `kvaware` takes the cache route on the stock answer and falls back on the patched one |
| UpstreamLookup.ThresholdMonotone | patches/vllm_router/routers/routing_logic.py:391-395 | raising the threshold never gives up the cache route, and a full-prompt credit takes it at every threshold from 0 on |
| CreditFacts.CreditIsFraction | patches/lmcache/v1/cache_controller/controllers/kv_controller.py:197-200 | every credit lies in (0, prompt length] and is the whole prompt exactly when the instance holds every chunk |
| CreditFacts.CreditIsCommonPrefix | conformance/test_lmcache_conformance.py:141-157 | an engine holding exactly one prompt's chunks is credited, for another prompt, with exactly the chunks the two share from the start |
| LoadAware.BenefitReadings | patches/vllm_router/routers/routing_logic.py:558-568 | a match shorter than the prompt counts its share of it, a longer one 1, and an empty prompt nothing |
| LoadAware.RelativeLoadReadings | patches/vllm_router/routers/routing_logic.py:519-540 | on a busy fleet 0 is average, 1 is twice the average and -1 is idle; at a mean of at most 1 the gap to the mean counts raw |
| LoadAware.SimplerRule | patches/vllm_router/routers/routing_logic.py:515-540 | the mean in the score cancels: the choice is the one of benefit - beta * load / max(1, mean) |
| LoadAware.ScoreOrder | patches/vllm_router/routers/routing_logic.py:542-569 | one engine scores at least another exactly when its cache advantage pays for its load gap, priced in the clamped mean |
| LoadAware.ChoiceUnique | patches/vllm_router/routers/routing_logic.py:616-617 | the least URL of maximal score is unique, so a run is reproducible |
| Sorting.StrLeIff | patches/vllm_router/routers/routing_logic.py:616-624 | the tie-breaking order: a URL comes first exactly when it is a prefix of the other or has the smaller character at their first difference |
| LoadAware.OrderIndependent | patches/vllm_router/routers/routing_logic.py:603-636 | neither the order nor repeats of the endpoint list change the choice |
| LoadAware.ScaleInvariant | patches/vllm_router/routers/routing_logic.py:519-526 | multiplying every load by k changes nothing while both means are at least 1 |
| LoadAware.RelativeLoadBounds | patches/vllm_router/routers/routing_logic.py:515-540 | relative loads sum to 0 over the fleet and lie in [-1, n - 1] |
| LoadAware.LocalityFloor | patches/vllm_router/routers/routing_logic.py:542-569 | the chosen engine's cached fraction is at least any other's minus beta * n |
| LoadAware.ColdNeverBeatsFullHit | patches/vllm_router/routers/routing_logic.py:542-569 | with beta * n < 1 a cold engine is never chosen over a full hit |
| LoadAware.TwoEngineCrossover | patches/vllm_router/routers/routing_logic.py:551-556 | with two engines, a full hit outscores a cold one exactly while beta * relative load is below one half |
| LoadAware.ChosenNearLeastLoaded | patches/vllm_router/routers/routing_logic.py:603-636 | at any loads, the chosen engine is within max(1, mean) / beta of every other |
| LoadCycle.OpenIff | patches/vllm_router/routers/routing_logic.py:503-513 | a request is open on an engine exactly when it was placed there and has not finished |
| LoadCycle.CountersAreRequests | patches/vllm_router/routers/routing_logic.py:503-513 | over every run of placements, first tokens and finishes, an engine's two counters are its open requests without and with a first token |
| LoadCycle.LoadIsOpenRequests | patches/vllm_router/routers/routing_logic.py:501-513 | so its load is the number of requests placed on it and not finished, counted from the run |
| LoadCycle.FirstTokenChangesNoChoice | patches/vllm_router/routers/routing_logic.py:501-513 | a request's first token changes no placement decision |
| LoadRuns.ScaleGrows | patches/vllm_router/routers/routing_logic.py:533-540 | a placement never shrinks the clamped mean |
| LoadRuns.PlacementKeepsBalance | patches/vllm_router/routers/routing_logic.py:603-636 | one policy placement keeps every load difference within max(1, mean) / beta + 1, whatever the cache answered |
| LoadRuns.FallbackKeepsBalanceIff | patches/vllm_router/routers/routing_logic.py:754-756 | a placement outside the policy keeps a balanced fleet balanced if and only if its target is within max(1, mean) / beta of every other engine, the mean taken after it |
| LoadRuns.AlwaysBalancedIff | patches/vllm_router/routers/routing_logic.py:603-636 | over any run of policy and fallback placements from an idle fleet, no two loads ever differ by more than max(1, mean) / beta + 1 if and only if every fallback meets that gap at the loads it found |
| LoadRuns.RunStaysBalanced | patches/vllm_router/routers/routing_logic.py:603-636 | in particular over every run that the policy places alone |
| LoadRuns.SessionFallbackEscapesBound | patches/vllm_router/routers/routing_logic.py:754-756 | four fallback placements of one session on one of two engines are a run, and break the bound |
| Bridge.InvertStep | patches/vllm_router/routers/routing_logic.py:595 | one turn of the inversion keeps each URL mapped to the last id inserted for it |
| Bridge.FreshIdIsLive | patches/vllm_router/routers/routing_logic.py:579-584 | a new id becomes its URL's live id and changes no other URL's |
| Bridge.StaleAnswerStaysBehind | patches/vllm_router/routers/routing_logic.py:581-583 | on any bridge, an id answered again for its own URL is live afterwards exactly when it is new or was live before: a known id does not move in front of a newer one |
| Bridge.WrittenIdIsLiveIff | patches/vllm_router/routers/routing_logic.py:595 | on any bridge and for any answer, the answered id becomes its URL's live id exactly when no id of that URL is listed after it |
| Bridge.WriteLeavesOthers | patches/vllm_router/routers/routing_logic.py:595 | every other URL keeps its live id, unless the answer is that very id |
| BridgeRuns.NextKeepsInvariant | patches/vllm_router/routers/routing_logic.py:571-601 | with one engine per address, every restart, registration and query keeps: ids known only for the URL they were issued to, and each URL's live id the one last reported |
| BridgeRuns.BridgeNamesLastReported | patches/vllm_router/routers/routing_logic.py:571-601 | with one engine per address, over every interleaving of restarts with fresh ids, lagging registrations and queries, inverting the bridge names the id most recently reported |
| BridgeRuns.AlwaysReportedIffSeparate | patches/vllm_router/routers/routing_logic.py:674-684 | the bridge names the last reported ids over every run of a fleet if and only if no two of its engines share an address |
| BridgeRefresh.AlwaysNamesIff | patches/vllm_router/routers/routing_logic.py:595-684 | for any series of answers whatever, the bridge names the last reported ids throughout if and only if no answered id is listed before another id of its URL and none is another URL's live id |
| BridgeRefresh.SharedAddressTakesId | patches/vllm_router/routers/routing_logic.py:676-684 | two endpoints answering one id: the bridge no longer names what was reported for the first |
| BridgeRuns.OnlyReportedIdCredited | patches/vllm_router/routers/routing_logic.py:579-601 | while the bridge names the last reported ids, the credits depend on the lookup's answer only through the last reported ids: an older id's match never reaches the score |
| BridgeRuns.QueriedEngineIsLiveIff | patches/vllm_router/routers/routing_logic.py:584-594 | a query makes the URL's credit its live engine's own if and only if the engine's registration is no longer behind its restart |
| BridgeRuns.RefreshIsItsAnswers | patches/vllm_router/routers/routing_logic.py:674-684 | however restarts and registrations fall between its queries, a refresh leaves the bridge its own answers written in order |
| BridgeRefresh.FreshIff | patches/vllm_router/routers/routing_logic.py:638-658 | on any bridge, no refresh is due exactly when every endpoint has a live id and every named holder is known |
| BridgeRefresh.RefreshedAt | patches/vllm_router/routers/routing_logic.py:674-684 | after a refresh, every answered id maps to the last endpoint that answered it |
| BridgeRefresh.RefreshedFrame | patches/vllm_router/routers/routing_logic.py:674-684 | an id nobody answered keeps its entry or its absence |
| BridgeRefresh.MappedIffCovered | patches/vllm_router/routers/routing_logic.py:653-684 | a URL is mapped after a refresh if and only if an id nobody answered already mapped to it, or it is the last endpoint to answer some id |
| BridgeRefresh.StaleAfterRefreshIff | patches/vllm_router/routers/routing_logic.py:638-685 | after a refresh with any answers the bridge is stale if and only if a holder was neither known before nor answered now, or some endpoint is not so covered |
| BridgeRefresh.SharedIdStaysStale | patches/vllm_router/routers/routing_logic.py:676-684 | in a first refresh, an endpoint whose id a later endpoint answers too stays unmapped, so the bridge is stale whatever the lookup named |
| BridgeRefresh.SharedAddressStaysStale | patches/vllm_router/routers/routing_logic.py:676-684 | two endpoints answering one id: every holder is known after the refresh and the bridge is stale all the same |
| BridgeRefresh.RefreshTwice | patches/vllm_router/routers/routing_logic.py:674-684 | a refresh that hears the same answers again changes nothing |
| BridgeRefresh.QueriesAgainIff | patches/vllm_router/routers/routing_logic.py:667-673 | on an unchanged fleet, after requests of which one queried, a further request queries again if and only if a holder stays unknown or an endpoint unmapped |
| LoadAwareRouter.Router.UrlToInstance | patches/vllm_router/routers/routing_logic.py:595 | inverts the bridge: each mapped URL gets the last id inserted for it, no other URL appears |
| LoadAwareRouter.Router.MatchedTokensByUrl | patches/vllm_router/routers/routing_logic.py:595-601 | credits exactly the URLs whose live id the lookup names, with that id's tokens |
| LoadAwareRouter.Router.BestInOrder | patches/vllm_router/routers/routing_logic.py:622-636 | over the sorted endpoints, the strict comparison returns the least URL of maximal score, and nothing only for no endpoints |
| LoadAwareRouter.Router.SelectUrl | patches/vllm_router/routers/routing_logic.py:603-636 | `select_url` on live credits only; None exactly for an empty fleet |
| LoadAwareRouter.Router.RefreshInstanceMap | patches/vllm_router/routers/routing_logic.py:660-685 | queries every endpoint and writes every answer exactly when stale; otherwise no query and no change |
| LoadAwareRouter.Router.RouteRequest | patches/vllm_router/routers/routing_logic.py:724-763 | fallback exactly on an empty lookup or an empty fleet, without touching the bridge in the first case; otherwise the policy's choice on the refreshed bridge |
| LoadAwareRouter.Router.KvawareRouteRequest | patches/vllm_router/routers/routing_logic.py:385-430 | the cache route exactly when the lookup names a holder and at most `threshold` tokens of the prompt lie beyond its credit; there the first holder's URL, queried for only when unknown, and a key error exactly when no endpoint answers to it; otherwise the fallback, the bridge untouched |
| LoadAwareRouter.UnknownHolderStaysStale | patches/vllm_router/routers/routing_logic.py:638-672 | a named holder no endpoint ever answers to keeps the bridge stale after any number of refreshes, so each request queries the fleet again |
| EndToEnd.CreditReadsEventLog | patches/lmcache/v1/cache_controller/controllers/kv_controller.py:66-207 | after any sequence of registry calls, `lookup` credits an instance up to chunk i exactly when each chunk up to i has an admit of that instance with no later removal |
| EndToEnd.BenefitIsTrueFraction | patches/vllm_router/routers/routing_logic.py:558-569 | on the lookup's own answer the `min` guard is the identity, and benefit is positive, or 1, exactly when the URL's live instance holds the first chunk, or every chunk |
| EndToEnd.BenefitReadsReportedEngine | patches/vllm_router/routers/routing_logic.py:568-601 | while the bridge names the last reported ids, benefit is 1 exactly when the last reported instance holds every chunk, and 0 for a URL never reported |
| Ranks.TieGroupRank | benchmarks/analyze.py:328-336 | a tie group i..j of the sorted magnitudes has midrank (i + j) / 2 + 1: number smaller plus half of one more than the number equal |
| Ranks.RankSum | benchmarks/analyze.py:326-336 | the midranks sum to n(n + 1)/2, ties or not |
| Wilcoxon.Midranks | benchmarks/analyze.py:326-336 | the tie loop gives each entry (number strictly smaller in magnitude) + (number equal + 1)/2 |
| SignCounts.EveryVectorOnce | benchmarks/analyze.py:340 | the enumeration lists every sign vector exactly once |
| SignCounts.LeCountIsSubsetCount | benchmarks/analyze.py:338-342 | the enumerated count equals the leave-out/take-in recursion over ranks |
| SignCounts.SubsetCountPermutation | benchmarks/analyze.py:338-342 | the count does not depend on the order of the ranks |
| SignCounts.Complement | benchmarks/analyze.py:338-342 | flipping all signs pairs the sums at most total - w with those at least w |
| SignCounts.TailCountsAreExact | benchmarks/analyze.py:338-342 | exactly as many vectors as a vector's tail count have a tail count no larger |
| Wilcoxon.SlackIsIdle | benchmarks/analyze.py:341 | on half-integer sums the 1e-9 slack never changes a comparison |
| Wilcoxon.CountAtMost | benchmarks/analyze.py:338-342 | the counting loop on real ranks with slack counts exactly the doubled sums at most the doubled observation |
| Wilcoxon.ExactOneSided | benchmarks/analyze.py:315-343 | returns n, W+ and p of the nonzero differences; an empty list gives no W+ and p = 1 |
| Wilcoxon.TestIsValid | benchmarks/analyze.py:315-343 | for any magnitudes and any level alpha, at most alpha * 2^n sign assignments get p <= alpha |
| Wilcoxon.TestIsExact | benchmarks/analyze.py:315-343 | at every attainable p, exactly p * 2^n sign assignments get a p-value that small |
| Wilcoxon.OrderDoesNotMatter | benchmarks/analyze.py:322-343 | permuting the differences leaves n, W+ and p unchanged |
| Wilcoxon.MirrorLaw | benchmarks/analyze.py:337-343 | W+(d) + W+(-d) = n(n + 1)/2 and p(d) + p(-d) = 1 + P(W+ = observed) |
| Wilcoxon.PValueFloor | benchmarks/analyze.py:337-343 | p >= 1/2^n, with equality exactly when no difference is positive |
| Wilcoxon.FiveSeedsCannotBeSignificant | benchmarks/analyze.py:80 | with five nonzero differences or fewer, p is above the registered alpha of 0.025 |
| Wilcoxon.SignificanceReachableIff | benchmarks/analyze.py:80 | that alpha is reachable with n nonzero differences if and only if n is at least six |
| OrderStats.RoundIff | benchmarks/analyze.py:106 | rounding gives the one integer within one half, the even one of two |
| OrderStats.RankIsNearest | benchmarks/analyze.py:102-106 | between the 0th and the 100th percentile the clamp is idle and the index is within one half of p/100 * (n - 1), even at a tie |
| OrderStats.PercentileMonotone | benchmarks/analyze.py:101-107 | a higher percentile is never a smaller value, with banker's rounding of the rank |
| OrderStats.PercentilePermutation | benchmarks/analyze.py:101-107 | the percentile does not depend on sample order |
| OrderStats.PercentileExtremes | benchmarks/analyze.py:101-107 | percentiles at or below 0 and at or above 100 are the minimum and the maximum |
| OrderStats.PercentileUnderIff | benchmarks/analyze.py:101-107 | a percentile is under the objective exactly when at least k + 1 samples are strictly under it, k the nearest-rank index |
| OrderStats.GoodputEdges | benchmarks/analyze.py:122-124 | no goodput exactly when nothing was sent; otherwise in [0, 1], 0 exactly when no answer met the objective and 1 exactly when every request sent did |
| OrderStats.PercentileDecidedByGoodput | benchmarks/analyze.py:101-124 | so it is decided by goodput, whatever number of requests was sent |
| OrderStats.RelativeReductions | benchmarks/analyze.py:351 | pair by pair to the shorter arm, the entry times the base is base minus candidate; a zero base in a pair, and nothing else, divides by zero |
| OrderStats.ReductionSign | benchmarks/analyze.py:349-351 | on a positive base a reduction is positive exactly when the candidate is lower, and at most 1 exactly when the candidate is not negative |
| OrderStats.ReductionsUnitFree | benchmarks/analyze.py:351 | multiplying both arms by one positive factor changes no reduction |
| OrderStats.BootstrapMedian | benchmarks/analyze.py:346-360 | for any random stream: the point is the median of the pairwise reductions, and the ends are the stated percentiles of the medians of the resamples; a zero base divides by zero; no pairs give no interval |
| OrderStats.IntervalEndsObserved | benchmarks/analyze.py:353-360 | both ends are observed per-seed reductions, low at most high |
| LogLines.MatchBeginIff | benchmarks/collect_job.py:36 | the header pattern matches exactly the lines of that shape, with any decimal digits for the length, and reads back name, hash and length |
| LogLines.MatchEndIff | benchmarks/collect_job.py:37 | the end pattern matches exactly END, a space and one token |
| LogLines.MatchMarkIff | benchmarks/collect_job.py:38 | the mark pattern matches exactly one of its three words, a space and one token |
| LogLines.RStripIff | benchmarks/collect_job.py:76 | every trailing line end goes, and nothing else |
| LogLines.PyIntOfSigned | benchmarks/collect_job.py:104-107 | one leading sign is read |
| LogLines.PyIntOfGrouped | benchmarks/collect_job.py:104-107 | a single underscore between digits is passed over |
| LogLines.PyIntOfUnderscored | benchmarks/collect_job.py:104-107 | a leading or trailing underscore, and the empty string, are refused |
| LogLines.PyIntOfDoubled | benchmarks/collect_job.py:104-107 | two underscores in a row are refused |
| LogLines.PyIntOfDecimal | benchmarks/collect_job.py:104-107 | a printed window mark is read back as the number printed |
| JobLog.Parse | benchmarks/collect_job.py:67-123 | the line loop and its final checks, in order, with each error the source raises and the values it reports |
| JobLog.DecodeBlob | benchmarks/collect_job.py:45-64 | the four checks in their order, each with its own error and the values it reports |
| JobLog.DecodeOkIff | benchmarks/collect_job.py:45-64 | a blob is accepted exactly when it unpacks to bytes of the declared length and hash |
| JobLog.JoinedAppend | benchmarks/collect_job.py:93 | body lines are joined in their order with nothing between them |
| JobLog.WantIff | benchmarks/collect_job.py:111 | the files wanted are exactly the expected seeds' driver files |
| LogLoss.BodyLineFacts | benchmarks/collect_job.py:88-96 | a base64 line can be neither marker, header, end line nor ALL_DONE |
| LogLoss.ScanUnclosed | benchmarks/collect_job.py:88-99 | a frame that loses its end line is never closed: the log fails as interleaved or truncated |
| LogLoss.ScanFrame | benchmarks/collect_job.py:77-96 | whatever survives of one frame leaves the scan failed, stuck in that frame, or holding nothing false |
| LogLoss.ScanFrames | benchmarks/collect_job.py:75-99 | whatever survives of all remaining frames and the last line leaves it failed, stuck, or holding nothing false |
| LogLoss.LossIsNeverSilent | benchmarks/collect_job.py:67-123 | for every subset of the lines of a well-formed log and any expected seeds, `parse` raises or returns the full marks and exactly the expected seeds' files |
| LogLoss.LossShowsIffCollisionFree | benchmarks/collect_job.py:54-64 | no line loss is ever silent if and only if no partial body of the job's files unpacks to other bytes of the declared length and hash |
| LogReads.EveryLossFits | benchmarks/collect_job.py:67-123 | every choice of surviving lines is a choice in the window, in the frames and of the last line |
| LogReads.FramesOutcome | benchmarks/collect_job.py:75-99 | the surviving lines of the frames read as exactly the frames that kept header, end line and a good body, unless a frame kept its header without the rest |
| LogReads.DamagedLogParsesIff | benchmarks/collect_job.py:67-123 | a damaged log parses if and only if END > START, the three marks and ALL_DONE survive, each frame lost its header or kept header, end line and a body that passes the checks, and the frames read are the expected ones; it returns the full marks and what was read |
| LogReads.LossRaisesIff | benchmarks/collect_job.py:98-121 | expecting the job's own seeds, it parses if and only if END > START and the NODE, CELL_START and CELL_END lines, every header, every end line, a good body of every frame, and ALL_DONE survive |
| LogLoss.FullLogRoundTrips | benchmarks/in_pod.sh:39-60 | the printed log parses, back to its marks and files, if and only if END > START and the seeds are the expected ones |
| Medians.MedianPermutation | benchmarks/utilization.py:173-176 | the median does not depend on the order of the values |
| Medians.MedianShift | benchmarks/utilization.py:173-176 | adding a constant to every value adds it to the median |
| Medians.MedianMirror | benchmarks/utilization.py:173-176 | negating every value negates the median |
| Medians.MedianHalves | benchmarks/utilization.py:173-176 | at least half the values are at or below the median and at least half at or above it |
| Medians.MedianOfOneOutlier | benchmarks/utilization.py:173-176 | one larger value among at least two equal ones does not move the median |
| Utilization.WithinKeepsEvery | benchmarks/utilization.py:197 | every sample in the window is used, repeats included, and no other |
| Utilization.ToleranceCases | benchmarks/utilization.py:201-205 | the tolerance is two median gaps, or two default steps where the series shows no positive step |
| Utilization.SegmentsPartition | benchmarks/utilization.py:201-208 | the edges and gaps partition the window, and the running sum is their total credit |
| Utilization.CoverageAccounting | benchmarks/utilization.py:179-209 | 1 - coverage is the sum over segments of the excess over tolerance, divided by the window; the cap at 1 never bites |
| Utilization.NoSampleNoCoverage | benchmarks/utilization.py:199-200 | no sample in the window, or no window, is coverage 0 |
| Utilization.OneHoleLaw | benchmarks/utilization.py:183-209 | a series of at least three gaps, equal to g but for one hole longer than 2g, loses exactly the hole's excess over 2g and the edges' excess over 2g |
| Utilization.HoleIsCharged | benchmarks/utilization.py:183-188 | a sample-free stretch costs its excess over the tolerance wherever it lies |
| Utilization.FullCoverageIff | benchmarks/utilization.py:179-209 | coverage is 1 exactly when no gap and no edge exceeds the tolerance |
| Utilization.TwoSurvivorsScoreFullIff | benchmarks/utilization.py:190-209 | two surviving samples score the whole window as covered if and only if each edge is at most twice the stretch between them |
| Utilization.LostMiddleScoresFull | benchmarks/utilization.py:190-209 | samples at 10 and 50 of a 60-second window: coverage 1 |
| Utilization.CounterRateSomeIff | benchmarks/utilization.py:147-152 | no rate exactly below two samples or over no time; otherwise rate times time is the positive growth |
| Utilization.GrowthIsTotalMinusMissed | benchmarks/utilization.py:134-152 | the sum of positive deltas is the true total minus, at each reset, the counts before it and the regrowth up to the old value |
| Utilization.RateSandwich | benchmarks/utilization.py:134-152 | the rate is at most the true rate and at least the rate over reset-free intervals |
| Utilization.NoResetIsEndpointDifference | benchmarks/utilization.py:137-141 | without a reset the sum is last minus first |
| Utilization.OnlyPreResetCountsMissedIff | benchmarks/utilization.py:144-145 | only the counts before resets are lost if and only if at every reset the sample before or after it is zero |
| Utilization.RegrowthIsMissed | benchmarks/utilization.py:144-145 | a reset after a sample of 100 followed by 50 counts: nothing preceded the reset, and all 50 are missed |

## Left out

- RunStaysBalanced: no request finishes during a run; completions are covered per decision by `ChosenNearLeastLoaded`.
- LossIsNeverSilent: assumes no partial body of a file collides with that file in length and hash; `LossShowsIffCollisionFree` shows that this is also necessary.
- BridgeNamesLastReported: takes one engine per address and ids fresh at every restart; `AlwaysReportedIffSeparate` shows the first is necessary, and `AlwaysNamesIff` covers arbitrary answers.
- LoadIsOpenRequests: the monitor that keeps `request_stats` is not part of this model; its two counters are taken to follow each request from placement over its first token to its finish.
- ScaleInvariant: stated where both means are at least 1, the range in which the clamp at 1 is idle.
- KeyNamesPrefix: the prefix hash is taken to be collision free, as are `KeysAtDifferentDepths` and `CreditIsCommonPrefix`; the exactness of `lookup` does not need it.
- Lookup: `process_tokens` is modelled with `save_unfull_chunk` on, as deployed; the event id and the log line are not modelled.
- MatchBeginIff: decimal digits are those of Unicode 15.0; `int()` refusing very long digit strings is not modelled.
- Parse: the wording of the messages and the text of the wrapped exceptions are not modelled; the line source is a finished sequence.
- FullLogRoundTrips: what the load driver prints, including the per-seed banner, is any list of lines that match no marker.
- Floating point: scores, times, fractions and ranks are exact reals; overflow to infinity and `nan` inputs are not modelled.
- The bootstrap's generator: any stream of valid indices.
- Interleaving inside one awaited query: the query and its write are one step; queries of different requests interleave freely in `BridgeRuns`.
- `clear`, `pin`, `compress`, `decompress`, `move`, `check_finish`: forwards to code outside the repository.
- Tokenizer, HTTP, ZMQ, the hash ring, the QPS route and session extraction: parameters or absent.
- `SessionRouter`, `PrefixAwareRouter`, `DisaggregatedPrefillRouter`, `RoundRobinRouter` and the singleton registry: thin, or over code outside the repository.
- The two router classes are one class here; inheritance is not modelled.
- `gauge_stats`, CSV and JSON reading, plots, reports, the collectors, the fake server, workload generation and the shell and Helm scripts other than the printed log: plumbing and presentation.
