# Tronz, modelled and proved

Tronz is a TRON SDK. This project models the parts of it that hold real algorithms or
state machines and proves what they promise:

- the event watcher and the stream on top of it (`EventLogs.dfy`, `EventWatcher.dfy`,
  `EventStream.dfy`): a cursor over confirmed blocks, fed by a node that may report any
  head and fail any request, and the loop that hands the events out one by one;
- the fillers (`TtlCache.dfy`, `Fillers.dfy`, `EnergyRun.dfy`, `FillerTree.dfy`): the cache
  whose lock is held across a fetch, the TAPOS filler, the fee arithmetic, any number of
  energy fills at once, the filler tree, and sending a transaction through it;
- the ABI conversions (`SortedMap.dfy`, `TronAbi.dfy`, `AbiRoundTrip.dfy`,
  `AbiNormalForm.dfy`, `AbiMeaning.dfy`) between TRON's ordered entry list and the JSON ABI's maps by name;
- the contract macro (`SolMacro.dfy`, `MethodNames.dfy`): stripping TRON's attributes from a
  token stream and naming the generated methods;
- TRX amounts (`Amount.dfy`, on top of `Decimals.dfy`): parser, printer, checked arithmetic;
- the selector and topic index of an interface (`Interface.dfy`).

Code that changes state step by step is a method or a class here, proved equal to a
specification function (`PollOnce`, `TakeTurnOf`, `Serve`, `Scan`, `ToJson`, `Strip`, ...);
what the program promises is then proved about that function, over whole runs where it is a
promise about runs. The node, the clock, the ABI library, hashing, signing and decoding are
parameters: arbitrary functions or arbitrary sequences of answers. 64- and 128-bit integers
are subset types, so every arithmetic step is proved not to leave its width unless the source
checks for it.

Run `dafny verify dfyconfig.toml` to check everything.

## Where the code and its documentation differ

- The comment on `strip_tron_attrs` (crates/sol-macro/src/lib.rs:687-690) says the
  `bytecode` and `deployed_bytecode` keys are removed from `#[sol(...)]`; the code
  (lines 778-811) removes only `rpc`, and the model follows it.
- The `EnergyFiller` documentation (crates/provider/src/fillers/mod.rs:238-239) says a node
  that does not offer `EstimateEnergy` is asked only once. Fills that overlap can ask it
  again: `EnergyRun.OverlappingFillsAskTwice` is such a run, `EnergyRun.RefusedAgainExactly`
  says exactly which fills can still be refused after the first refusal, and
  `EnergyRun.AskedOnceExactlyWhen` exactly when the first refusal stays the only one.
- `with_tapos` (crates/rpc-types/src/types/transaction.rs:73-79) keeps the milliseconds of
  an expiry, `TaposFiller` (crates/provider/src/fillers/mod.rs:177) only its whole seconds;
  they agree exactly on whole seconds (`Tapos.FillerAgreesWithTapos`).
- The methods generated for a contract handle do not always have distinct names:
  `MethodNames.NumberClashExample` and `MethodNames.FilterClashExample` are contracts for
  which two are equal, and `MethodNames.HandleMethodsDistinct` says exactly when none are.

One more result is about a function rather than about the program. `strip_tron_attrs`, taken
on arbitrary token streams, can let a stray `#` open the next bracket group once the attributes
between them are removed (`TokenStrip.StrayHashCounterexample`). The exact conditions under
which it touches nothing but attributes, leaves no TRON attribute, and changes nothing the
second time are `TokenStrip.OnlyAttributesAreTouched`, `TokenStrip.OutputIsCleanExactlyWhen`
and `TokenStrip.StrippingTwiceIsOnceExactlyWhen`. The macro strips only streams that it also
parses as Solidity: inline input before it is stripped (crates/sol-macro/src/lib.rs:73-83, 203),
JSON input right after, the stripped stream being dropped when that fails (lines 167-174). So
this is no fault of the macro unless that parser accepts a stray `#`; the parser is not part
of this model.

## Model

| member | source | states |
|---|---|---|
| EventLogs.EventFilter.WithConcurrency | crates/contract/src/event_filter.rs:67-73 | The concurrency becomes the greater of the argument and one, and what the filter matches does not change. |
| EventLogs.DecodeLogsConcat | crates/contract/src/event_filter.rs:121-134 | Decoding two batches one after the other is decoding their concatenation; the first error wins. |
| EventLogs.DecodeLogsMeaning | crates/contract/src/event_filter.rs:121-134 | Success is every log of the filter's address, if it has one, with its signature as first topic, unless anonymous - decoded once each, in order, and no other log; failure is the error of the first such log that does not decode. |
| EventQuery.FlatLogsAt | crates/contract/src/event_filter.rs:96-99 | The logs of a block are those of its transactions, one transaction after another. |
| EventQuery.QueryBlock | crates/contract/src/event_filter.rs:89-101 | Decoding transaction by transaction is decoding the block's logs at once, including which error is reported; the events are those of the filter's logs, picked by address and signature, in order. |
| EventQuery.QueryRange | crates/contract/src/event_filter.rs:108-119 | For every window size and every order in which requests start and answers arrive, the result is that of visiting the blocks one at a time; no schedule gets stuck. |
| EventQuery.ScanIsOneDecoding | crates/contract/src/event_filter.rs:108-119 | With every block answered, a range query is one decoding of the flattened logs of the range. |
| EventQuery.ScanStopsAtFirstFailure | crates/contract/src/event_filter.rs:108-119 | At the first block that fails, an undecodable log before it is reported first, otherwise the node's own error. |
| EventWatcher.SaturationIsInvisible | crates/contract/src/event_filter.rs:188-193 | The saturating target is the one unbounded integers give, for all 64-bit arguments. |
| EventWatcher.EventWatcher.WatchFrom | crates/contract/src/event_filter.rs:156-165 | A new watcher stands at the given block with the default settings and is not caught up. |
| EventWatcher.Watch | crates/contract/src/event_filter.rs:146-149 | Watching from now on starts just above the reported head with the default settings, or passes the node's error on. |
| EventWatcher.EventWatcher.SetConfirmations | crates/contract/src/event_filter.rs:202-205 | Negative confirmations become zero; nothing else changes. |
| EventWatcher.EventWatcher.SetMaxBlocksPerPoll | crates/contract/src/event_filter.rs:214-217 | A cap below one becomes one; nothing else changes. |
| EventWatcher.EventWatcher.Poll | crates/contract/src/event_filter.rs:250-260 | One poll is `PollOnce` on unbounded integers, no step leaves 64 bits, and a failure changes no field. |
| EventWatcher.PollPromises | crates/contract/src/event_filter.rs:231-260 | A failed poll reports the node's or the scan's error and changes nothing. A successful poll returns the events of exactly the blocks it moves over, at most `max_blocks` of them and none above the confirmed height, and is caught up exactly when its cursor is past that height. |
| EventWatcher.TurnDelivers | crates/contract/src/event_filter.rs:250-260 | A poll, or a resume from `next_block()`, moves the cursor over exactly the blocks whose events it returns. |
| EventWatcher.ExactlyOnce | crates/contract/src/event_filter.rs:156-260 | For any heads, failures, settings and resumes, everything returned is the in-order decoding of the blocks from the first cursor to the last: nothing lost, repeated or reordered. |
| EventWatcher.NeverPassesUndecodable | crates/contract/src/event_filter.rs:250-260 | In no run does the cursor pass a block with a matching log that does not decode: such a watcher keeps failing there rather than losing an event. |
| EventWatcher.SameCursorSameEvents | crates/contract/src/event_filter.rs:227-260 | Two histories that stop at the same block have reported the same events, however they were cut. |
| EventWatcher.SteadyProgress | crates/contract/src/event_filter.rs:208-260 | With the head fixed and no failures, the cursor after k polls is exact: k windows further, or at the confirmed head. |
| EventWatcher.CatchesUpInCeilPolls | crates/contract/src/event_filter.rs:208-260 | The watcher is caught up after exactly ceil(backlog / max_blocks) such polls, and no fewer. |
| EventStream.EventStream.IntoStream | crates/contract/src/event_filter.rs:269-272 | The stream starts with an empty queue, no throttle, at the watcher's cursor. |
| EventStream.EventStream.Turn | crates/contract/src/event_filter.rs:273-289 | One turn of the loop takes the state and the observed trace where `TakeTurnOf` says, and ends the call exactly when an item is handed out. |
| EventStream.EventStream.Next | crates/contract/src/event_filter.rs:269-292 | One request for an item is some number of turns of the loop; suspending and asking again continues the same run. |
| EventStream.StreamDeliversExactlyOnce | crates/contract/src/event_filter.rs:262-292 | In every run, the items handed out followed by the queue are the in-order decoding of the blocks from the start up to the cursor. |
| EventStream.StreamNeverSpins | crates/contract/src/event_filter.rs:262-292 | In every run: it polls and sleeps only with an empty queue, every reported error is followed by a sleep before the next poll, and two polls with no sleep between mean the first advanced. |
| EventStream.StreamNeverDawdles | crates/contract/src/event_filter.rs:262-292 | In every run each sleep is owed: it stands directly behind a reported error, or behind a successful poll that found nothing and left the cursor past the confirmed height (or opens a stream that starts throttled); such a poll is followed by a sleep and a failed one by its error at once; and what the trace shows of a poll is what a node answered. |
| EventStream.StreamCatchesUp | crates/contract/src/event_filter.rs:262-292 | On a node that keeps answering, finitely many turns bring the cursor past the confirmed head and empty the queue. |
| EventStream.StreamHandsOutTheBacklog | crates/contract/src/event_filter.rs:262-292 | The items handed out by then are the in-order decoding of all blocks up to the confirmed head. |
| TtlCache.Cell.GetOrFetch | crates/provider/src/fillers/mod.rs:340-351 | One pass through the lock serves a fresh entry unchanged, stores a successful fetch with its time, and leaves the cache alone when the fetch fails. |
| TtlCache.EveryRun | crates/provider/src/fillers/mod.rs:150-167 | For any interleaving of callers, clock ticks, failures and dropped requests: the lock and the callers agree, the cache is the last successful fetch, stamps are a TTL apart, and every value used was fetched by its user under the lock or is younger than the TTL. |
| TtlCache.OneFetchAtATime | crates/provider/src/fillers/mod.rs:150-167 | At most one request to the node is outstanding. |
| TtlCache.FetchesAreRateLimited | crates/provider/src/fillers/mod.rs:340-351 | From the i-th to the j-th successful fetch at least j - i TTLs pass. |
| TtlCache.OnlySuccessfulRepliesWrite | crates/provider/src/fillers/mod.rs:340-351 | No step writes the cache but a successful reply to a caller that is fetching. |
| TtlCache.OthersCannotInterfereLong | crates/provider/src/fillers/mod.rs:150-168 | While a caller holds the lock, nothing the others do reaches the cache, the lock or that caller. |
| TtlCache.PassThroughTheLockIsServe | crates/provider/src/fillers/mod.rs:150-168 | So a caller's pass through the lock, however interleaved, is the sequential `Serve`. |
| TtlCache.NoDeadlock | crates/provider/src/fillers/mod.rs:150-168 | While somebody is queued, some caller can move. |
| ProviderTypes.RefBytesAreTheHeight | crates/rpc-types/src/types/block.rs:39-43 | The two reference bytes are the height modulo 65536, big-endian; two blocks share them exactly when their heights agree there. |
| Tapos.FillerAgreesWithTapos | crates/rpc-types/src/types/transaction.rs:73-79 | Filling from a block in hand and filling through the filler agree exactly when the expiry is whole seconds. |
| Tapos.TaposFiller.Fill | crates/provider/src/fillers/mod.rs:135-181 | A filled request is returned as it is; otherwise the four fields come from the block the cache serves, and the expiration fits 64 bits. |
| Tapos.FilledMeaning | crates/provider/src/fillers/mod.rs:169-178 | A filled request carries the last two bytes of the height, bytes 8 to 16 of the block id, the block's own time, and that time plus the whole seconds of the expiry; nothing else changes. |
| Tapos.FillTaposOutcome | crates/provider/src/fillers/mod.rs:145-167 | A request with a reference is left alone; else the cached block is used while younger than the TTL, else the one fetched, which is cached with its time; a failed fetch is reported and caches nothing. |
| Tapos.BurstsShareOneBlock | crates/provider/src/fillers/mod.rs:90-98 | Two fills through one cache inside its TTL refer to the same block, and filling again changes nothing. |
| Tapos.BlocksInUseAreRecent | crates/provider/src/fillers/mod.rs:150-167 | In every run each block used was just fetched by its user or is younger than the TTL, and different fetches lie a TTL apart. |
| Energy.EnergySettings.TryWithBounds | crates/provider/src/fillers/mod.rs:307-317 | Bounds are taken exactly when they are in order; otherwise both are reported. |
| Energy.LimitIsExact | crates/provider/src/fillers/mod.rs:393-413 | There is no limit exactly when energy or price is negative, the full product exceeds i128 or the ceiling is negative; otherwise it is the floor of the product over 100, clamped, and the narrowing loses nothing. |
| Energy.LimitIsMonotone | crates/provider/src/fillers/mod.rs:393-413 | More energy, a higher price or a bigger margin never gives a lower limit. |
| Energy.LimitCoversTheCall | crates/provider/src/fillers/mod.rs:393-413 | The limit stays in the bounds and covers energy times price whenever the ceiling does. |
| Energy.EnergyFiller.EnergyPrice | crates/provider/src/fillers/mod.rs:340-351 | The price is what the shared cache serves. |
| Energy.EnergyFiller.EnergyNeededFor | crates/provider/src/fillers/mod.rs:354-385 | The estimate is asked only while the latch is unset, `Unsupported` alone sets it, and any failure falls through to the read-only call, whose revert is an error. |
| Energy.EnergyFiller.Fill | crates/provider/src/fillers/mod.rs:421-453 | The new cache, latch and request are those of `FillEnergy`, error cases included. |
| Energy.NoGuessedLimit | crates/provider/src/fillers/mod.rs:241-250 | Under `Fail` a call's limit prices an energy answer of this very fill at a price from the node or fresh in the cache. |
| Energy.EnergyNeededMeaning | crates/provider/src/fillers/mod.rs:354-385 | The energy is the node's estimate while no refusal is on record, or else what a read-only call that did not revert has used; `Unsupported` alone sets the latch. |
| Energy.EstimateSucceedsExactlyWhen | crates/provider/src/fillers/mod.rs:354-413 | An estimate succeeds exactly when such an energy, a price (cached while fresh, else the node's) and a limit for the two exist, and is that limit; a transient failure of the node's estimate is no obstacle. |
| Energy.FillOutcome | crates/provider/src/fillers/mod.rs:421-453 | A request that has or needs no limit is left alone, a deployment gets the fallback, a call gets the estimate or under `UseFallback` the fallback, and fails exactly when the estimate does under `Fail`, with its error. |
| EnergyRun.EveryRun | crates/provider/src/fillers/mod.rs:340-453 | In every interleaving of any number of fills, each caller's history is one the rules allow - among them that a limit's price was handed to its caller after this fill's energy answer and when the fill ended - and latch and price cache summarise it. |
| EnergyRun.NoGuessedLimits | crates/provider/src/fillers/mod.rs:241-250 | In every run, the step that ends a fill with a limit is the one that brought its price: the node's reply to this caller fetching under the lock, or a look at a cache younger than the TTL at that moment. An earlier step brought the energy, the last thing this caller did, and the limit is the arithmetic on the two. Under `Fail` no fill ends with the fallback. |
| EnergyRun.GivesUpOnlyWithoutAnEstimate | crates/provider/src/fillers/mod.rs:354-453 | In every run a fill fails or takes the fallback only at a step where its read-only call failed or reverted, its price could not be fetched, or the arithmetic refused the two; a node that refuses the estimate or does not answer it is no reason. |
| EnergyRun.LoneFillIsTheEstimate | crates/provider/src/fillers/mod.rs:354-453 | From any reachable state with the price cache unlocked, an undisturbed fill ends as the sequential estimate does, with the same cache and latch behind it. |
| EnergyRun.LatchRemembersRefusals | crates/provider/src/fillers/mod.rs:359-375 | The latch is set exactly when a refusal is on record, only an `Unsupported` reply sets it, and it stays set. |
| EnergyRun.AskedAgainOnlyByEarlierReaders | crates/provider/src/fillers/mod.rs:236-239 | A second refusal can only come to a fill that read the latch before the first one. |
| EnergyRun.RefusedAgainExactly | crates/provider/src/fillers/mod.rs:236-239 | After the first refusal a fill can be refused exactly when the last thing it did was to read the latch before that refusal. |
| EnergyRun.AskedOnceExactlyWhen | crates/provider/src/fillers/mod.rs:236-239 | At the first refusal, it stays the only one in every continuation exactly when no other fill is between its reading of the latch and the answer to its estimate. |
| EnergyRun.OverlappingFillsAskTwice | crates/provider/src/fillers/mod.rs:236-239 | A run in which two overlapping fills are both refused, against the documented "only asked once". |
| FillerTree.LeafMeaning | crates/provider/src/fillers/mod.rs:28-47 | Each leaf has its turn once per pass; fee-limit and downstream fillers act in the sync half, the others in the async half, and a downstream filler's request or error is handed on as it is. |
| FillerTree.TreeIsItsLeaves | crates/provider/src/fillers/mod.rs:69-88 | Both halves of a filler tree act as the list of its leaves, for every nesting; a downstream leaf may do anything that depends on the request and the moment it is called. |
| FillerTree.BuildRequest | crates/provider/src/provider/builder.rs:549-557 | Building a request is determined by the leaves alone: a sync pass, an async pass, a sync pass. |
| FillerTree.IdentityIsAUnit | crates/provider/src/fillers/mod.rs:48-51 | Joining with `Identity` on either side changes nothing. |
| FillerTree.NestingIsIrrelevant | crates/provider/src/fillers/mod.rs:69-88 | Re-nesting changes nothing. |
| FillerTree.BuildRunsEachLeafInOrder | crates/provider/src/provider/builder.rs:549-557 | A successful build runs each leaf's sync half twice and async half once, in leaf order; a failed one stops right after the async half that failed. |
| FillerTree.FeeLimitPrecedence | crates/provider/src/fillers/mod.rs:196-202 | For an operation that needs a limit: the request's own, else the leftmost `FeeLimitFiller` default, else the leftmost `EnergyFiller`, whose own settings price a call; in the first two cases no energy filler consults the chain, else at most that one does, once. |
| FillerTree.NoLimitWhereNoneIsNeeded | crates/provider/src/fillers/mod.rs:421-431 | An operation that needs no limit keeps what it came with, and nobody asks the chain. |
| FillerTree.EnergyLeafIsTheFiller | crates/provider/src/fillers/mod.rs:421-453 | The energy leaf of the tree does to a request what the energy filler does. |
| FillerTree.TaposLeafIsTheFiller | crates/provider/src/fillers/mod.rs:135-181 | The TAPOS leaf of the tree does to a request what the TAPOS filler does. |
| FillerTree.RightmostWalletSigns | crates/provider/src/fillers/mod.rs:542-594 | The rightmost wallet of the tree signs, with the key its strictness chooses, even when that is an error; without a wallet nobody does. |
| FillerTree.SendTransaction | crates/provider/src/provider/builder.rs:526-547 | Sending succeeds exactly when there is an owner, the fillers fill, the provider below builds, the rightmost wallet signs - with the owner's key if it is strict or holds it, else its default one - and the node accepts that very transaction; otherwise the error is that of the first of these that fails. |
| FillerTree.WhatIsBroadcast | crates/provider/src/provider/builder.rs:526-547 | Nothing is broadcast unless fillers, build and signature succeeded, and then exactly one transaction, built from the filled request and signed by the rightmost wallet; a strict one only with the owner's key. |
| SortedMap.LessIsLexicographic | crates/abi/src/alloy.rs:235-239 | Names are ordered lexicographically by their characters. |
| SortedMap.CollectUndoesFlatten | crates/abi/src/alloy.rs:275-363 | Collecting the items of a name map gives the map back without its empty groups. |
| SortedMap.StableIsAStableSort | crates/abi/src/alloy.rs:235-239 | Collecting by name and listing again is a stable sort: same items, in name order, overloads in their order. |
| AbiGrouping.RegroupKeepsItems | crates/abi/src/alloy.rs:137-138 | Regrouping by kind and name only moves items. |
| AbiGrouping.RegroupSortsNames | crates/abi/src/alloy.rs:235-239 | Within a kind, names come in order and the overloads of a name keep theirs. |
| TronAbi.TryFromJsonAbi | crates/abi/src/alloy.rs:160-233 | The pushing loops give the entries of the items in iteration order, or the first error. |
| TronAbi.TryToJsonAbi | crates/abi/src/alloy.rs:275-363 | The filling loop gives `ToJson`, including which error is reported. |
| TronAbi.ToJsonIsPlacing | crates/abi/src/alloy.rs:278-360 | Converting to JSON is converting each entry and placing the items; it succeeds exactly when both do. |
| TronAbi.PlacingSucceeds | crates/abi/src/alloy.rs:280-348 | Placing items fails exactly when a constructor, fallback or receive comes twice. |
| TronAbi.PlacingGroups | crates/abi/src/alloy.rs:313-354 | Afterwards each map holds the items of its kind, collected by name in their order. |
| AbiMeaning.ToJsonMeaning | crates/abi/src/alloy.rs:245-363 | A list of entries reaches JSON exactly when each has a known kind, a valid name if named, kept parameters with valid names, no bare tuple type and a type the parser reads, and a mutability that is set or `Unknown(0)` without conflicting flags, and no constructor, fallback or receive comes twice; otherwise the first entry that is not so gives the error, named field by field. |
| AbiMeaning.EntryToJsonMeaning | crates/abi/src/alloy.rs:275-363 | The item an entry becomes holds the entry's fields: name, parameters as the parser reads them, indexed and anonymous flags, and the mutability set or spelled by the legacy flags. |
| AbiMeaning.StateToJsonMeaning | crates/abi/src/alloy.rs:85-106 | An unset mutability is payable if the flag says so or the entry is `receive`, view if constant, else non-payable; both at once conflict, and any other unknown value is refused. |
| AbiMeaning.ItemFromJsonMeaning | crates/abi/src/alloy.rs:163-230 | The entry an item becomes holds the item's fields, names kept and types in selector form, with legacy flags that agree with its mutability. |
| AbiMeaning.FromItemsMeaning | crates/abi/src/alloy.rs:160-233 | Items convert one by one, in order; the first with an invalid name, an incomplete tuple or no selector type gives the error. |
| AbiRoundTrip.EraseMeaning | crates/abi/src/alloy.rs:133-138 | What the round trip erases: component names and internal types at every depth; types, tuple shapes and parameter names stay. |
| AbiRoundTrip.ItemsConvert | crates/abi/src/alloy.rs:142-143 | A JSON ABI converts exactly when every name is valid and every kept parameter has components if it is a tuple and a selector type. |
| AbiRoundTrip.PlacingWhatWasListed | crates/abi/src/alloy.rs:160-363 | Listing an ABI's items and placing them again only loses empty groups. |
| AbiRoundTrip.JsonRoundTrip | crates/abi/src/alloy.rs:131-138 | For every well-formed ABI that converts and whose types the parser reads back, JSON to TRON to JSON gives it back with component names, internal types and empty groups erased, and nothing else. |
| AbiNormalForm.StateBack | crates/abi/src/alloy.rs:76-106 | A mutability that reaches JSON comes back as the one the entry stands for; the legacy flags speak only where it is unset. |
| AbiNormalForm.EntryBack | crates/abi/src/alloy.rs:108-129 | An entry that reaches JSON comes back exactly when no kept parameter is an empty tuple, and then in normal form for its kind. |
| AbiNormalForm.ToJsonSucceeds | crates/abi/src/alloy.rs:245-249 | Entries reach JSON exactly when each converts and no singleton comes twice. |
| AbiNormalForm.TronRoundTrip | crates/abi/src/alloy.rs:235-243 | TRON to JSON to TRON succeeds exactly when no kept parameter is an empty tuple, and gives the normalised entries stably regrouped. |
| AbiNormalForm.NormalFormConserves | crates/abi/src/alloy.rs:235-243 | That result holds the normalised entries and no others, kinds in order, names in order, the overloads of a name in theirs. |
| AbiNormalForm.SecondTripChangesNothing | crates/abi/src/alloy.rs:160-363 | What came back once gives the same JSON again, so a second round trip changes nothing. |
| SolMeta.FilterSolMeta | crates/sol-macro/src/lib.rs:778-811 | The splitting and joining loops compute `FilteredMeta`. |
| SolMeta.SplitMeaning | crates/sol-macro/src/lib.rs:779-789 | A meta list is its pieces with commas between them; no piece holds a comma, and each comma separates two pieces. |
| SolMeta.FilteringKeepsAllButRpc | crates/sol-macro/src/lib.rs:772-811 | The entries of the filtered list are, in order, exactly those whose first token is not the identifier `rpc`: `bytecode` and `deployed_bytecode` stay. |
| SolMeta.FilteringDropsExactlyRpc | crates/sol-macro/src/lib.rs:772-811 | The entries of the filtered list are those of the list whose key is not `rpc`, in order; it is empty exactly when none is left. |
| SolMeta.SplitUndoesJoin | crates/sol-macro/src/lib.rs:779-810 | Splitting a joined list at its commas gives its entries back. |
| TokenStrip.RewriteAttrMeaning | crates/sol-macro/src/lib.rs:742-770 | An attribute goes exactly when it is `tron_sol` or a `sol` list with only `rpc` entries; a `sol` list that stays loses just those and whatever follows the list, any other attribute is untouched, and rewriting twice is rewriting once. |
| TokenStrip.AttrGoesExactlyWhen | crates/sol-macro/src/lib.rs:742-770 | An attribute goes exactly when it starts with `tron_sol` or is a `sol` list each of whose entries starts with `rpc`. |
| TokenStrip.StripTronAttrs | crates/sol-macro/src/lib.rs:691-736 | The recursive index loop computes `Strip`. |
| TokenStrip.PrintUndoesParse | crates/sol-macro/src/lib.rs:692-734 | Reading a stream as a tree of attributes, groups and single tokens loses nothing. |
| TokenStrip.StripPrintsTheRewrittenTree | crates/sol-macro/src/lib.rs:691-736 | On every stream the output is the print of the parsed tree with its attributes rewritten or removed in place. |
| TokenStrip.StripRewritesTheTree | crates/sol-macro/src/lib.rs:685-736 | The output parses as that rewritten tree exactly on safe streams. |
| TokenStrip.OnlyAttributesAreTouched | crates/sol-macro/src/lib.rs:687-690 | The stream without its attributes survives stripping exactly on safe streams. |
| TokenStrip.OutputIsCleanExactlyWhen | crates/sol-macro/src/lib.rs:687-736 | No TRON-only attribute or `rpc` key is left at any depth exactly when no bracket group that comes to stand behind a stray `#` holds what would be one. |
| TokenStrip.StrippingTwiceIsOnceExactlyWhen | crates/sol-macro/src/lib.rs:687-736 | Stripping again changes nothing exactly when no such bracket group holds anything more to rewrite. |
| TokenStrip.StripRemovesExactlyTron | crates/sol-macro/src/lib.rs:687-736 | On safe streams no TRON-only attribute or `rpc` key is left at any depth, all else stays in place, and stripping again changes nothing. |
| TokenStrip.EveryHashOpensIsSafe | crates/sol-macro/src/lib.rs:705-730 | A stream in which each `#` opens an attribute is safe. |
| TokenStrip.StrayHashCounterexample | crates/sol-macro/src/lib.rs:705-734 | A stream with a stray `#` on which a `tron_sol` attribute comes out and a second pass changes the result. |
| MethodNames.ReservedIsExactly | crates/sol-macro/src/lib.rs:813-830 | The reserved names are those of the methods every handle has, and `new`. |
| MethodNames.NumberOverloads | crates/sol-macro/src/lib.rs:354-372 | The counting loops give the i-th of several same-named functions or events `name_i` in declaration order and a single one its own name. |
| MethodNames.NameMethods | crates/sol-macro/src/lib.rs:353-502 | On these names a reserved function method gets `_call` and an event's filter method `_filter`. |
| MethodNames.NumberedInjective | crates/sol-macro/src/lib.rs:366-367 | A generated name has one base and one index: the last underscore tells them apart. |
| MethodNames.CallStructsDistinct | crates/sol-macro/src/lib.rs:353-372 | The names of the call structs are pairwise distinct exactly when no declared name equals another's generated name. |
| MethodNames.MethodNamesDistinct | crates/sol-macro/src/lib.rs:353-377 | The methods of the functions are named apart exactly when besides that no declared name equals a reserved declared one with `_call`. |
| MethodNames.HandleMethodsDistinct | crates/sol-macro/src/lib.rs:446-601 | All inherent methods of a handle - of its functions, of its events, and those every handle has - are named apart exactly when besides that the events' names do not meet their numbered ones, no function that keeps its name is called like a filter method, and no lone event is called `event`. |
| MethodNames.FilterClashExample | crates/sol-macro/src/lib.rs:474-502 | A function `Transfer_filter` beside an event `Transfer` gives two methods of one name. |
| MethodNames.NumberClashExample | crates/sol-macro/src/lib.rs:353-377 | `f` overloaded beside `f_0` gives two methods of one name. |
| Amount.SplitDigits | crates/primitives/src/amount.rs:86-102 | The first pass accepts exactly digits, `_` and at most one point, and sorts the digits to both sides of it. |
| Amount.Accumulate | crates/primitives/src/amount.rs:111-121 | The checked 64-bit fold is the value of the digits, or nothing exactly when that exceeds `u64`. |
| Amount.FromStr | crates/primitives/src/amount.rs:81-128 | Exactly the well-formed texts whose value times 10^6, rounded down, is at most `i64::MAX` parse, and to that number; no checked step refuses a representable amount. |
| Amount.AcceptedExactlyWhen | crates/primitives/src/amount.rs:81-128 | A text is an amount exactly when it holds only ASCII digits, `_` and at most one point and its truncated value is at most `i64::MAX`. |
| Amount.SeparatorsAreIgnored | crates/primitives/src/amount.rs:94-102 | Removing every `_` never changes the result. |
| Amount.DigitsPastTheSixthAreIgnored | crates/primitives/src/amount.rs:104-109 | Appending digits after the sixth decimal never changes the result. |
| Amount.ParseUndoesDisplay | crates/primitives/src/amount.rs:196-204 | Parsing the printed form gives back every amount from 0 to `i64::MAX`. |
| Amount.DisplayIsCanonical | crates/primitives/src/amount.rs:196-204 | The printed form is a minus sign for negative amounts, the whole TRX without leading zeros, a point and six digits. |
| Amount.NegativeNeverParses | crates/primitives/src/amount.rs:81-84 | The printed form of a negative amount never parses. |
| Amount.DisplayInjective | crates/primitives/src/amount.rs:196-204 | No two 64-bit amounts print alike. |
| Amount.CheckedArithmeticIsExact | crates/primitives/src/amount.rs:47-75 | Checked addition and subtraction give the sum or difference of two amounts exactly when that is an amount, and nothing otherwise. |
| Amount.CheckedArithmeticInverse | crates/primitives/src/amount.rs:59-75 | Checked addition and subtraction undo each other and never leave the amounts `from_sun` allows. |
| AbiIndex.IndexAgreesWithScan | crates/contract/src/interface.rs:187-211 | For every key the index gives what scanning the ABI in (name, overload) order gives, the last hit winning. |
| AbiIndex.LastWithMeaning | crates/contract/src/interface.rs:187-211 | The scan finds the last item of that key and fails exactly when there is none. |
| Interface.SelectorsAgreeWithScan | crates/contract/src/interface.rs:166-171 | A selector finds the last function that has it and fails exactly when none has. |
| Interface.TopicsAgreeWithScan | crates/contract/src/interface.rs:173-178 | A topic finds the last event that has it and is not anonymous, and fails exactly when there is none. |
| Interface.DecodeLogMeaning | crates/contract/src/interface.rs:116-130 | A log is decoded by the last event with its first topic that is not anonymous, giving that event's name and what the library decodes, or the library's error; without such an event the topic is reported as unknown. |
| Interface.DecodeLogsPositions | crates/contract/src/interface.rs:132-147 | Decoding many logs reports, in order, exactly on the logs whose first topic is that of an event that is not anonymous, each as it decodes alone. |
| Interface.DecodeLogsAgreesWithScan | crates/contract/src/interface.rs:132-147 | Decoding many logs is decoding each by the scan's event; a log that passes the key check never comes out as an unknown event. |
| Interface.LogWithoutTopics | crates/contract/src/interface.rs:124-147 | A single log without topics is looked up under the zero topic; among many it is skipped. |

## Left out

- The gRPC transport, protobuf, generated clients, retry and middleware: the node is an arbitrary sequence of answers.
- Signatures, hashing, key stores, addresses and mnemonics: foreign libraries behind function parameters.
- The operation builders, `ext/*`, the TRC20 and TRC721 instances and `call.rs`: field setting and missing-field checks, only easy members.
- `query_tx`, `encode_input`, `decode_input` and their kin: one call each into the parts modelled here.
- Alloy's parameter parser, selector types and identifier check are parameters of the ABI model. The round trips assume of each parameter at hand that the parser reads its own selector type and name back (`ReadsBack`) and that what it returns carries the declared name and no component names or internal types (`ParsesLawfully`).
- The items of a JSON ABI share one datatype here, and `WellFormedAbi` says which kind sits in which field, which Rust's types do; map keys equal to their items' names are assumed, as the ABI library builds them.
- Log decoding (`decode_raw_log`, `decode_log_parts`) is an arbitrary partial function of the log.
- The internals of the futures `buffered` combinator: it is a first-in-first-out window of at most n requests.
- Token spans, spacing and `quote!` output of the macro, its file reading and its type mapping.
- Tapos.TaposFiller.Fill: blocks whose timestamp plus the expiry leaves 64-bit milliseconds are excluded; what the source's addition does there depends on the build.
- Heads are assumed to lie from 0 to `i64::MAX` - 1.
- Durations are whole milliseconds, and the clock of one process never runs backwards.
- The poll interval itself: only that a sleep happens, not how long it takes.
- EnergyRun.LatchRemembersRefusals: the latch is one atomic cell whose readers see every earlier store; the source's relaxed ordering promises that only eventually, so another thread may read it as unset a little longer.
- Errors carry their kind and the values they report, not their message texts.
- Panics of `with_bounds` on inverted bounds: it is `try_with_bounds` with the error turned into a panic.
- A downstream filler's effect is a function of the request and of the moment it is called; that covers its state and the provider's answers, but what it asks the provider is not recorded.
- The builder's `layer` and connection methods: they wrap types and pass arguments on.
