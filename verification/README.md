# A Dafny model of Moduvex

Moduvex is a Rust framework: a single-threaded async runtime, a module system with a boot order, an
HTTP router with WebSocket and multipart support, a PostgreSQL layer with a pool, a query builder and
migrations, and distributed tracing. This project models the parts with the most state, branching or
arithmetic and proves what they promise, for every input and every run.

- Routing: `RadixTrie` (the trie and the lookup law), `RouteTable` (a linear scan as the reference and
  the agreement theorem), `RadixNode` (the linked nodes, updated in place), `RouteNesting`,
  `PathPattern`, `Router`.
- Module system: `DepGraph`, `Registry` (the topological sort), `Dependency` (the type-level check as
  derivations), `BootSequence`, `Lifecycle`.
- Connection pool: `Pool` (the operations under the lock), `PoolProtocol` (all interleavings of clients,
  closes and health sweeps as a state machine) and `PoolClock` (the time limits).
- WebSocket: `WsFrame` (RFC 6455 section 5.2 and 5.3), `WsStream` (section 5.4 and the receive loop),
  `WsFraming`, `WsClosing` (section 5.5 and `send`), `WsEndToEnd`, `WsExamples` (section 5.7).
- SQL: `SqlParam`, `SqlLines`, `SqlTemplate` (arbitrary templates), `SqlValue` (what literals mean),
  `QueryBuilder`, `QueryReading` (queries read back).
- Multipart: `Multipart`, `MultipartRoundTrip`, `MultipartHeaders`.
- Runtime: `Scheduler` (the queues), `Executor` (the run loop), `ExecutorOrder` (who is next).
- Migrations: `Migration`, against a database that may fail at any statement, and `MigrationRace`, many runs at
  once.
- Tracing: `TraceIds`, `Traceparent` (section 3.2 of W3C Trace Context).
- Shared: `Prelude`, `Words` (64-bit words), `Utf8` (RFC 3629), `Splitting`.

Objects that the program updates in place are classes, loops are methods with invariants, and both are
proved against functions on values; the laws are lemmas about those functions. `dafny verify
dfyconfig.toml` checks everything.

What comes from outside is a parameter: clock readings, the bytes of each read, whether bytes are UTF-8,
which connections answer a ping, how each SQL statement ends, what user futures do when they are
polled, how starts, stops and hooks end. 64-bit and machine-word arithmetic is written out with its
wrap-around; saturating subtraction is written out where the pool uses it.

## Where the code and its documentation differ

The model follows the code.

- `moduvex-core/src/app/builder.rs:92-93` says modules may be registered in any order. The check accepts
  only lists where requirements are registered first (`Dependency.AllDepsOkIff`,
  `Dependency.RegistrationOrderMatters`).
- `moduvex-core/src/app/builder.rs:143` sorts by priority only; dependencies start first exactly under
  the condition of `BootSequence.CheckedListsStartInOrder`.
- `moduvex-runtime/src/executor/waker.rs:160-168` says a running task is re-polled after a wake. The wake
  is dropped, whatever else the poll does (`Executor.PendingPollQueuesIff`), and the task is stranded until
  something else queues it (`Executor.StrandedNeverReturns`, `Executor.YieldStrandsTheRun`).
- `moduvex-runtime/src/executor/task.rs:270-271` says an aborted idle task is dropped on the next pass. It is
  dropped exactly if a header of it is queued, and `abort` queues none (`Executor.AbortDropsIff`).
- `moduvex-runtime/src/executor/scheduler.rs:150-169` loses one header when the local queue fills up
  during a steal (`Scheduler.StealConservesIff`, `Scheduler.StealFrom514`).
- `moduvex-http/src/websocket/stream.rs:84-85` says a ping is answered and then waiting continues; the
  code also returns the ping to the caller (`WsStream.PingIsReturned`).
- `moduvex-http/src/websocket/frame.rs:145-193` adds a declared 64-bit length to an offset; where the sum
  leaves the machine word the code panics (`WsFrame.OverflowIff`, `WsFrame.HugeFrameOverflows`).
- `moduvex-http/src/websocket/frame.rs:62-71` allows 125 bytes in a ping or pong; `send` does not check, and the
  receiver refuses more (`WsClosing.SentIsReceivedIff`).
- `moduvex-http/src/extract/multipart.rs:213-221` reads header names in two spellings only, though names are
  case-insensitive (`MultipartHeaders.HeaderNameIff`), and `:285-287` falls back to a blank line of bare line feeds
  only if no blank line with carriage returns follows anywhere (`MultipartRoundTrip.BareBlankIff`).
- `match_path` accepts a wildcard with nothing left, the trie does not (`PathPattern.MatchPathVersusTrie`).
- `parse_traceparent` takes uppercase digits and plus signs, which the standard excludes
  (`Traceparent.ParsedFormatsBackIff`, `Traceparent.PlusAccepted`), and panics on text with a character across
  the middle of the trace id (`Traceparent.PanicsIff`).
- `moduvex-db/src/query/param.rs:167-170` copies a template byte by byte, so text that is not ASCII is changed
  (`SqlTemplate.CopiedIffAscii`). A parameter may merge with a quote next to it, start a comment behind a
  minus sign, or break out of a comment of the template (`SqlTemplate.LexKeptIff`,
  `SqlTemplate.TouchingLiteralsMerge`, `SqlTemplate.MinusStartsComment`, `SqlTemplate.CommentedOutIff`), and an
  apostrophe in a comment turns strings inside out (`SqlTemplate.ApostrophesToggle`).
- `moduvex-db/src/query/param.rs:39-57` promises literals; an infinite or undefined float is written as a bare word
  that is no number (`SqlValue.TokensReadBackIff`).
- `moduvex-db/src/migrate/mod.rs:65` returns with the transaction open when the record is refused
  (`Migration.CleanRunCompletesIff`, `Migration.StuckUntilReconnect`); a duplicate version is skipped silently by
  the next run (`Migration.ReportMeansAppliedIff`, `Migration.SecondRunHidesDuplicate`).
- `moduvex-db/src/migrate/runner.rs:7-8` takes no lock. The database stays right (`MigrationRace.RaceKeepsPrefix`),
  but a process that fetched too early returns an error (`MigrationRace.LoserIff`, `MigrationRace.LostRace`).
- `moduvex-db/src/pool/mod.rs:163-166` drains idle connections on close; a sweep under way puts its survivors
  back afterwards (`PoolProtocol.CloseDrainsForGoodIff`, `PoolProtocol.SweepOutlivesClose`).
- `moduvex-http/src/routing/router.rs:127-144` mounts under any prefix; behind a wildcard only one of the mounted
  handlers is left (`RouteNesting.NestUnderWildcard`).

## Model

| member | source | states |
|---|---|---|
| `RadixTrie.InsertWellFormed` | moduvex-http/src/routing/radix.rs:106-157 | insertion keeps literal children strictly sorted, every wildcard with a handler and no bare nodes |
| `RadixTrie.InsertDown` | moduvex-http/src/routing/radix.rs:106-157 | one level of insertion touches only the child its first segment names |
| `RadixTrie.InsertHandler` | moduvex-http/src/routing/radix.rs:106-157 | insertion changes the handler of its own shape and of no other, so the last registration wins |
| `RadixTrie.InsertName` | moduvex-http/src/routing/radix.rs:106-157 | insertion names the nodes it creates and renames none |
| `RadixTrie.PrecedesTotal` | moduvex-http/src/routing/radix.rs:9-10 | two patterns that match one path are comparable by kinds unless equal up to names |
| `RadixTrie.LookupFindsBest` | moduvex-http/src/routing/radix.rs:169-229 | lookup answers None exactly when nothing stored matches, and otherwise the matching shape that is lexicographically least by literal < param < wildcard, with its captures |
| `RouteTable.BuildHandler` | moduvex-http/src/routing/radix.rs:106-157 | after any registrations a shape has the handler of its last registration |
| `RouteTable.BuildName` | moduvex-http/src/routing/radix.rs:106-157 | after any registrations a node has the name of the first registration through it |
| `RouteTable.ScanFindsBest` | moduvex-http/src/routing/radix.rs:169-229 | the reference: a linear scan over all registrations that keeps the best match so far finds the best |
| `RouteTable.TrieAgreesWithScan` | moduvex-http/src/routing/radix.rs:106-229 | for every list of registrations and every path, the trie and the linear scan give the same answer, captures included |
| `RouteTable.TrieAnswersScan` | moduvex-http/src/routing/radix.rs:106-229 | the answer of the trie, handler and captures, is the answer of the scan |
| `RadixNode.Node.SearchLiteral` | moduvex-http/src/routing/radix.rs:118-123 | binary search over the children finds the lower bound and says whether the key is there |
| `RadixNode.Node.Insert` | moduvex-http/src/routing/radix.rs:106-157 | the in-place insertion on linked nodes spells the trie insertion |
| `RadixNode.Node.Splice` | moduvex-http/src/routing/radix.rs:128-133 | inserting a child at its index keeps all subtrees disjoint and valid |
| `RadixNode.Node.Lookup` | moduvex-http/src/routing/radix.rs:169-229 | captures pushed to `params` are exactly those of the match on success and are rolled back on failure |
| `RadixNode.Node.CollectRoutes` | moduvex-http/src/routing/router.rs:198-211 | walking the linked nodes yields the flattened routes of the tree they spell |
| `RouteNesting.CollectExact` | moduvex-http/src/routing/router.rs:198-211 | collecting yields exactly the stored routes, each with its handler |
| `RouteNesting.SameViewEqual` | moduvex-http/src/routing/radix.rs:37-60 | well-formed trees with the same handlers and names are equal |
| `RouteNesting.CollectThenBuild` | moduvex-http/src/routing/router.rs:198-211 | re-inserting everything collected into an empty root rebuilds the same tree, node for node |
| `RouteNesting.NestIsWrap` | moduvex-http/src/routing/router.rs:127-144 | mounting into a fresh router hangs the mounted tree, unchanged, at the end of the prefix |
| `RouteNesting.NestLookup` | moduvex-http/src/routing/router.rs:127-144 | under a wildcard-free prefix a mounted tree answers for the remaining path what it answers alone, prefix captures first |
| `RouteNesting.NestKeepsOthers` | moduvex-http/src/routing/router.rs:127-144 | mounting into a router with routes replaces exactly the mounted shapes |
| `RouteNesting.NestUnderWildcard` | moduvex-http/src/routing/router.rs:127-144 | under a prefix with a wildcard the mounted tree shrinks to one handler, the one collected last, at the prefix wildcard; all other routes of the router stay |
| `RouteNesting.CollectLast` | moduvex-http/src/routing/router.rs:198-211 | which handler that is: the wildcard, else the last below the parameter, else below the greatest literal, else the own one |
| `PathPattern.JoinSplit` | moduvex-http/src/routing/router.rs:186-193 | splitting loses nothing: joining the pieces gives the text back |
| `PathPattern.PatternReadsBackIff` | moduvex-http/src/routing/path.rs:32-50 | a pattern written with colons for parameters and stars for wildcards is parsed back exactly when no name has a slash, no literal begins like another kind and the first segment is not empty |
| `PathPattern.TrimStartIs` | moduvex-http/src/routing/path.rs:32-36 | only leading slashes are cut off |
| `PathPattern.TrimEnd` | moduvex-http/src/routing/router.rs:127-131 | trailing slashes of a prefix are cut off, all of them and nothing else |
| `PathPattern.SplitMounted` | moduvex-http/src/routing/router.rs:127-144 | the pieces of a mounted path are the prefix pieces then the remaining ones, exactly when the rest is neither empty nor starts with a slash |
| `PathPattern.MatchPath` | moduvex-http/src/routing/path.rs:69-110 | the loop of `match_path` computes the simple matcher |
| `PathPattern.MatchPathVersusTrie` | moduvex-http/src/routing/path.rs:69-110 | the simple matcher accepts what the trie relation accepts and one thing more, a wildcard with nothing left; where both accept, captures agree |
| `Router.Router.Route` | moduvex-http/src/routing/router.rs:83-91 | registering changes the tree of its method by one insertion and nothing else; a router built from a list of registrations becomes the one built from the list with this one at its end |
| `Router.Router.NestUnder` | moduvex-http/src/routing/router.rs:127-144 | mounting re-inserts every method tree of the other router behind the prefix |
| `Router.Router.LookupRoute` | moduvex-http/src/routing/router.rs:151-174 | for a router built from any list of registrations: the answer is that of a linear scan over the registrations of the method; for HEAD, if there is none, that of the scan over those of GET; otherwise none |
| `Router.DispatchIsScan` | moduvex-http/src/routing/router.rs:151-174 | the same law for the lookup function, for every list of registrations and every request |
| `Router.MountAll` | moduvex-http/src/routing/router.rs:127-144 | the loop over method trees mounts each exactly once, in whatever order they come |
| `Router.MountedServes` | moduvex-http/src/routing/router.rs:127-174 | a fresh router with another mounted under a wildcard-free prefix serves, for every method, exactly what the tree of that method serves for the remaining pieces |
| `Router.MountedAnswers` | moduvex-http/src/routing/router.rs:127-174 | for every method, a request for `q/r` with `q` matching the prefix and `r` neither empty nor starting with a slash is answered as the mounted router answers `/r`, HEAD fallback included, prefix captures first |
| `Router.LiteralPrefixIsTransparent` | moduvex-http/src/routing/router.rs:127-174 | under a literal prefix the answer for `prefix/r` is exactly the mounted answer for `/r` |
| `Router.TrailingSlashMisses` | moduvex-http/src/routing/router.rs:127-193 | the condition is needed: a mounted router that serves `/` serves the prefix but not the prefix with a slash |
| `DepGraph.DependenciesFirst` | moduvex-core/src/module/registry.rs:112-122 | in an order built by taking ready modules, dependencies come before dependents |
| `DepGraph.PriorityFirst` | moduvex-core/src/module/registry.rs:100-115 | of two modules that could both be next the one with the higher priority comes first, and of two with the same priority the one registered later |
| `DepGraph.BootOrderUnique` | moduvex-core/src/module/registry.rs:100-122 | there is only one boot order: greatest (priority, index) among the ready modules at each position |
| `DepGraph.OrderMeansAcyclic` | moduvex-core/src/module/registry.rs:69-152 | a graph with a boot order has no cycle |
| `DepGraph.UnplacedIff` | moduvex-core/src/module/registry.rs:124-136 | a module is left over exactly when it is on a cycle or depends on one, directly or through others |
| `Registry.IndexNames` | moduvex-core/src/module/registry.rs:75-80 | the name table resolves a name to the last module registered under it |
| `Registry.CountDeps` | moduvex-core/src/module/registry.rs:82-98 | in-degrees and dependents are the counts of resolved dependency mentions, duplicates included |
| `Registry.PopMax` | moduvex-core/src/module/registry.rs:100-115 | the heap yields the greatest (priority, index) of the ready modules |
| `Registry.Place` | moduvex-core/src/module/registry.rs:114-122 | releasing dependents keeps every in-degree equal to its open dependencies; none underflows, none enters the heap twice |
| `Registry.Drain` | moduvex-core/src/module/registry.rs:100-122 | the loop of the sort yields a greedy order that cannot be extended |
| `Registry.Reorder` | moduvex-core/src/module/registry.rs:138-149 | entries are moved out in the given order, each slot still full when it is taken |
| `Registry.UnplacedNames` | moduvex-core/src/module/registry.rs:124-136 | the names collected for the error are those of the modules on or behind a cycle |
| `Registry.ModuleRegistry.Push` | moduvex-core/src/module/registry.rs:52-54 | appends an entry |
| `Registry.ModuleRegistry.TopologicalSort` | moduvex-core/src/module/registry.rs:69-152 | succeeds if and only if the graph is acyclic; then the entries are permuted into the boot order; otherwise they stay and the names of exactly the modules on or behind a cycle are reported, in registration order |
| `Registry.LeftoverIsStuck` | moduvex-core/src/module/registry.rs:124-136 | a sort that cannot place every module means a cycle |
| `Dependency.ContainsSound` | moduvex-core/src/module/dependency.rs:40-46 | a position witness exists only for a listed module |
| `Dependency.ContainsComplete` | moduvex-core/src/module/dependency.rs:40-46 | every listed module has a position witness |
| `Dependency.ContainsUnique` | moduvex-core/src/module/dependency.rs:40-46 | in a list without repetitions the witness is unique |
| `Dependency.AllDepsOkIff` | moduvex-core/src/module/dependency.rs:93-106 | the bound on `run` is derivable exactly when each module requirement lies in the list suffix starting at that module |
| `Dependency.RegistrationOrderMatters` | moduvex-core/src/app/builder.rs:86-113 | registering a module before what it requires gives a list no derivation accepts, although everything required is registered |
| `BootSequence.SortByPriority` | moduvex-core/src/module/registry.rs:59-61 | the sort is stable: descending priority, registration order among equals, and a permutation of the entries |
| `BootSequence.RunStartsDepsFirstIff` | moduvex-core/src/app/builder.rs:135-153 | the priority sort starts dependencies first exactly when every dependency precedes its dependent by priority, or by registration among equals |
| `BootSequence.EdgesGoForward` | moduvex-core/src/module/dependency.rs:93-106 | a list that passes the compile-time check registers dependencies earlier |
| `BootSequence.CheckedListsSort` | moduvex-core/src/module/registry.rs:69-152 | a list that passes the check, without self-dependencies, is acyclic, so the topological sort succeeds |
| `BootSequence.CheckedListsSortIff` | moduvex-core/src/module/registry.rs:69-152 | exactly: a checked list is acyclic if and only if no module requires itself |
| `BootSequence.CheckedListsStartInOrder` | moduvex-core/src/app/builder.rs:135-153 | for such a list the plain priority sort starts dependencies first exactly when no dependency has a lower priority than its dependent |
| `BootSequence.LowPriorityDependencyStartsLate` | moduvex-core/src/app/builder.rs:135-153 | a dependency with a lower priority is started after the module that needs it |
| `Lifecycle.Rollback` | moduvex-core/src/lifecycle/mod.rs:154-173 | all `n` started modules are stopped in reverse, whatever fails; no error is reported exactly when every stop succeeds, and otherwise that of the first call that failed |
| `Lifecycle.FirstError` | moduvex-core/src/lifecycle/mod.rs:154-173 | the reported error: none exactly when no call failed, otherwise that of the first that did |
| `Lifecycle.Run` | moduvex-core/src/lifecycle/mod.rs:72-151 | for every outcome of starts, stops, hooks and the drain: exactly which modules are stopped, always a prefix of the reversed start order; which error is returned; a failed start is reported even if stops fail; a timeout and a failing last hook hide stop errors |
| `Lifecycle.StopsOnlyStarted` | moduvex-core/src/lifecycle/mod.rs:72-173 | so only started modules are stopped, each at most once, latest first |
| `Pool.SettledDropsExpired` | moduvex-db/src/pool/mod.rs:76-135 | an undisturbed acquire, reading the clock every turn, drops connections that are expired at their turn and returns the first fit one, reserves a slot, or reports exhaustion |
| `Pool.FreshPartIs` | moduvex-db/src/pool/mod.rs:86-100 | what is left ends in a connection that is fit when looked at, and everything dropped was expired when looked at |
| `Pool.PoolInner.AcquireTurn` | moduvex-db/src/pool/mod.rs:80-107 | one turn of the acquire loop under the lock |
| `Pool.PoolInner.AcquireUndisturbed` | moduvex-db/src/pool/mod.rs:76-135 | the loop of one client that is not disturbed |
| `Pool.PoolInner.GiveSlotBack` | moduvex-db/src/pool/mod.rs:115-120 | a failed open gives its slot back |
| `Pool.PoolInner.ReleaseConn` | moduvex-db/src/pool/mod.rs:141-161 | release discards into a closed pool or at capacity, and otherwise puts the connection at the end of the idle list with its creation time and the time of the release |
| `Pool.PoolInner.ClosePool` | moduvex-db/src/pool/mod.rs:167-180 | close drains the idle list and lowers `live` by it |
| `Pool.PoolInner.Sweep` | moduvex-db/src/pool/health.rs:37-79 | one undisturbed sweep keeps exactly the connections that are within limits and answer, in order, and lowers `live` by the rest |
| `Pool.SurvivorsIff` | moduvex-db/src/pool/health.rs:37-79 | a connection survives exactly when it is within both limits and answers; survivors keep their order |
| `PoolProtocol.StepCounted` | moduvex-db/src/pool/mod.rs:76-180 | every step of every client and sweep keeps `live` = idle + checked out + reserved + held by sweeps, and `live` at most `max_size` |
| `PoolProtocol.SubtractionsExact` | moduvex-db/src/pool/mod.rs:88-180 | in such a state no subtraction saturates or underflows, and release into an open pool finds room |
| `PoolProtocol.StepOnePlace` | moduvex-db/src/pool/mod.rs:76-180 | no step puts a connection in two places |
| `PoolProtocol.StepGenuine` | moduvex-db/src/pool/mod.rs:141-161 | no step changes the creation time of a connection |
| `PoolProtocol.RunKeepsInvariant` | moduvex-db/src/pool/mod.rs:76-180 | all of this holds after every interleaving of any number of clients, closes and sweeps |
| `PoolClock.StepStamped` | moduvex-db/src/pool/mod.rs:141-161 | every step keeps: an idle or swept connection carries the time at which it was last released |
| `PoolClock.RunIsStamped` | moduvex-db/src/pool/mod.rs:76-180 | so this holds in every run |
| `PoolClock.CheckoutIff` | moduvex-db/src/pool/mod.rs:81-107 | in every run, on an open pool, the connection put back last is handed out exactly when it is within both limits, counted from when it was opened and when it was last released; otherwise it is dropped |
| `PoolClock.CheckoutIsFresh` | moduvex-db/src/pool/mod.rs:81-107 | and no connection is handed out from the idle list otherwise |
| `PoolClock.LastReleasedFirst` | moduvex-db/src/pool/mod.rs:81-161 | the connection released last is the next one handed out, if it is within the limits then |
| `PoolClock.SweepKeepsIff` | moduvex-db/src/pool/health.rs:43-72 | a sweep may keep a connection exactly when it is within both limits at its time |
| `PoolProtocol.ClosedForGood` | moduvex-db/src/pool/mod.rs:167-180 | once closed, in the whole run the pool stays closed, `live` never grows, and no client gets a connection or slot it did not have |
| `PoolProtocol.ClosedHandsOutNothing` | moduvex-db/src/pool/mod.rs:81-86 | no step on a closed pool hands out a connection or a slot |
| `PoolProtocol.LiveIsZeroIff` | moduvex-db/src/pool/mod.rs:163-180 | `live` is zero exactly when nothing is idle, held, being opened or in a sweep |
| `PoolProtocol.CloseDrainsForGoodIff` | moduvex-db/src/pool/mod.rs:163-180 | after `close`, in any state, the idle list stays empty in every run exactly when no sweep under way can still return a connection |
| `PoolProtocol.IdleLeavesIff` | moduvex-db/src/pool/health.rs:43-79 | a step on a closed pool takes connections off the idle list exactly when there are any and it is another `close` or the start of a sweep |
| `PoolProtocol.IdleAfterCloseStays` | moduvex-db/src/pool/health.rs:73-79 | connections idle in a closed pool stay until `close` is called again or another sweep begins |
| `PoolProtocol.SweepOutlivesClose` | moduvex-db/src/pool/health.rs:43-79 | a run where that fails: a sweep puts its survivor back into the closed pool |
| `WsFrame.MaskTwice` | moduvex-http/src/websocket/frame.rs:192-198 | masking twice with one key is the identity |
| `WsFrame.EncodeFrame` | moduvex-http/src/websocket/frame.rs:89-111 | the encoder appends the unmasked encoding to its buffer |
| `WsFrame.DecodeFrame` | moduvex-http/src/websocket/frame.rs:129-202 | the decoder with its running offset computes the decoding function on every byte string |
| `WsFrame.DecodeStable` | moduvex-http/src/websocket/frame.rs:129-202 | an answer does not change when more bytes arrive, and it consumes between 2 and all bytes |
| `WsFrame.DecodeMonotone` | moduvex-http/src/websocket/frame.rs:129-202 | a prefix of an incomplete buffer is incomplete |
| `WsFrame.FrameRoundTrip` | moduvex-http/src/websocket/frame.rs:89-202 | an encoded frame, masked with any key or not, followed by anything, decodes to itself |
| `WsFrame.PrefixIncomplete` | moduvex-http/src/websocket/frame.rs:89-202 | every strict prefix of an encoding is incomplete |
| `WsFrame.StreamRoundTrip` | moduvex-http/src/websocket/frame.rs:89-202 | any list of frames followed by anything decodes to that list and leaves what followed |
| `WsExamples.UnmaskedText` | moduvex-http/src/websocket/frame.rs:89-111 | the unmasked text of section 5.7 of RFC 6455, byte for byte |
| `WsExamples.MaskedText` | moduvex-http/src/websocket/frame.rs:89-111 | the masked example of section 5.7 of RFC 6455, byte for byte |
| `WsExamples.FragmentedText` | moduvex-http/src/websocket/frame.rs:89-111 | the fragmented example of that section |
| `WsExamples.PingAndPong` | moduvex-http/src/websocket/frame.rs:89-111 | the ping and the masked pong of that section |
| `WsExamples.LongBinary` | moduvex-http/src/websocket/frame.rs:89-111 | the 256-byte and 64-KiB frames of that section |
| `WsExamples.NormalClosure` | moduvex-http/src/websocket/frame.rs:72-111 | a close frame of status 1000, byte for byte |
| `WsFrame.OverflowIff` | moduvex-http/src/websocket/frame.rs:144-190 | the decoder panics exactly for data frames whose declared length does not fit beside the header |
| `WsFrame.HugeFrameOverflows` | moduvex-http/src/websocket/frame.rs:144-190 | a frame that declares 2^64 - 1 bytes is such input |
| `WsFrame.WrappedEndIsBeforeStart` | moduvex-http/src/websocket/frame.rs:187-193 | with wrapping additions the slice would end before it starts, so the decoder panics either way |
| `WsStream.FrameKeepsSession` | moduvex-http/src/websocket/stream.rs:115-208 | every frame keeps the fragment state well-formed, a successful one keeps the bound, and the last arms are unreachable |
| `WsStream.RunKeepsSession` | moduvex-http/src/websocket/stream.rs:115-208 | the same for every run of frames |
| `WsStream.ReassembledInPlace` | moduvex-http/src/websocket/stream.rs:115-208 | a message in one or more frames, with pings and pongs anywhere between, is delivered once and whole, each control in its place, each ping answered, the session idle again |
| `WsStream.ReassemblyFails` | moduvex-http/src/websocket/stream.rs:115-208 | and only then: text that is not UTF-8, or more than one frame beyond the bound, ends the run in an error |
| `WsStream.RecvAtOnce` | moduvex-http/src/websocket/stream.rs:89-110 | one `recv` gives the same result and leaves the same stream as if all bytes that arrive before the end had been there at once |
| `WsStream.CuttingDoesNotMatter` | moduvex-http/src/websocket/stream.rs:89-110 | however a byte stream is cut into reads, messages, final error and replies are the same; a read of nothing is the end of the stream |
| `WsStream.ReceiveFrames` | moduvex-http/src/websocket/stream.rs:89-158 | receiving a stream of encoded frames is running the frames |
| `WsEndToEnd.RunMessages` | moduvex-http/src/websocket/stream.rs:115-208 | a list of messages, each in any number of frames with controls in between, is delivered in order and leaves the session idle, or ends in an error, as each message is acceptable or not |
| `WsEndToEnd.DeliveredInOrderIff` | moduvex-http/src/websocket/stream.rs:89-208 | end to end: for any keys and any cutting into reads the receiver gets every message whole and in order, each control in its place, every ping answered, then the end of the stream, exactly when text is UTF-8 and messages in several frames are within the bound |
| `WsStream.HugeFrameCrashes` | moduvex-http/src/websocket/stream.rs:89-110 | the frame that declares 2^64 - 1 bytes makes `recv` panic |
| `WsStream.PingIsReturned` | moduvex-http/src/websocket/stream.rs:89-172 | `recv` on an encoded ping sends the pong and returns the ping, whatever follows |
| `WsClosing.CloseIsReturned` | moduvex-http/src/websocket/stream.rs:89-182 | `recv` on an encoded close, masked or not, whatever follows: returns the close and leaves the stream closed; answers with one close frame of status 1000 exactly when the stream was open |
| `WsClosing.RepliesInOrder` | moduvex-http/src/websocket/stream.rs:115-182 | in every run, failing or not, what is written are the pongs and the close for the handled frames, in their order, and the stream is closed exactly if a close was handled |
| `WsClosing.ClosesOnce` | moduvex-http/src/websocket/stream.rs:60-182 | for any mix of arriving frames and `send` calls: closed exactly when a close arrived or was sent, then one close frame has been written and behind it only pongs, before that none |
| `WsClosing.SentIsReceivedIff` | moduvex-http/src/websocket/stream.rs:60-110 | a sent message is received as that message exactly when text is UTF-8 and a ping or pong has at most 125 bytes |
| `WsFraming.SessionIsOpenMessage` | moduvex-http/src/websocket/stream.rs:115-158 | after accepted frames the fragment state is the kind and the bytes of the message whose last fragment is missing |
| `WsFraming.NextFrameRefusedIff` | moduvex-http/src/websocket/stream.rs:115-208 | which next frame is refused and why: data during fragments, a continuation without a start, more than 16 MiB in fragments, text that is not UTF-8, and nothing else |
| `WsStream.Stream.PrependReadBuf` | moduvex-http/src/websocket/stream.rs:45-51 | left-over bytes of the upgrade come first |
| `WsStream.Stream.Send` | moduvex-http/src/websocket/stream.rs:60-80 | refused once closed; a close closes the stream; one frame for each message |
| `WsStream.Stream.ProcessControl` | moduvex-http/src/websocket/stream.rs:160-182 | the control step in place: pings are answered and delivered, a close is answered once (`WsClosing.CloseIsReturned`) |
| `WsStream.Stream.ProcessFrame` | moduvex-http/src/websocket/stream.rs:115-158 | updating the fragment state in place does what the frame function says |
| `WsStream.Stream.Receive` | moduvex-http/src/websocket/stream.rs:89-110 | the receive loop performs one receive step of the stream state |
| `SqlParam.DecimalRoundTrip` | moduvex-db/src/query/param.rs:43-59 | decimal printing is read back |
| `SqlParam.SubstituteParams` | moduvex-db/src/query/param.rs:132-174 | the scanning loop, byte by byte, computes the substitution function, errors and panic included |
| `SqlParam.ReadIndex` | moduvex-db/src/query/param.rs:150-158 | the whole run of digits behind a dollar sign is the index |
| `SqlParam.SubstitutePlain` | moduvex-db/src/query/param.rs:132-174 | text without quotes and dollars is copied |
| `SqlParam.SubstitutePlaceholder` | moduvex-db/src/query/param.rs:132-174 | a placeholder becomes its literal, which is not looked at again |
| `SqlParam.ReadEscaped` | moduvex-db/src/query/param.rs:43-59 | an escaped text inside quotes is read back as the text |
| `SqlParam.LexLiteral` | moduvex-db/src/query/param.rs:43-59 | a literal followed by anything but a quote lexes to its tokens (what they mean is `SqlValue.TokensReadBackIff`) |
| `SqlValue.TokensReadBackIff` | moduvex-db/src/query/param.rs:43-64 | a reader of SQL literals reads the tokens of every parameter as its value: null, the boolean, the signed integer, the number, the text, the bytes; exactly infinite and undefined floats are not read |
| `SqlValue.LiteralReadsBackIff` | moduvex-db/src/query/param.rs:43-64 | the same for the text of the literal |
| `SqlTemplate.SubstituteWrites` | moduvex-db/src/query/param.rs:132-174 | for every template: substitution completes exactly when each placeholder outside strings has a parameter, and writes the template with the literals in their places; otherwise the first bad placeholder decides the error, or the panic on a number that does not fit |
| `SqlTemplate.QuotedTextIsCopied` | moduvex-db/src/query/param.rs:141-150 | a string literal of the template is copied, placeholders inside included |
| `SqlTemplate.CopiedIffAscii` | moduvex-db/src/query/param.rs:167-170 | for every template: the bytes give what the characters would exactly when the template is ASCII or a placeholder fails; other characters are taken apart into bytes |
| `SqlTemplate.LexKeptIff` | moduvex-db/src/query/param.rs:43-59 | a lexer with strings and line comments sees the template tokens and the parameters exactly when no quoted parameter touches a quote, no minus sign of the template meets one that starts a parameter, and no parameter in a template comment has a line break |
| `SqlTemplate.KeptIffApart` | moduvex-db/src/query/param.rs:43-59 | in a template without `--` that is a condition on neighbours only |
| `SqlTemplate.SubstitutedLexesIff` | moduvex-db/src/query/param.rs:132-174 | the same for the output of substitution into any template, with or without comments |
| `SqlTemplate.TouchingLiteralsMerge` | moduvex-db/src/query/param.rs:132-174 | a text parameter in front of a string literal is read as one longer string |
| `SqlTemplate.MinusStartsComment` | moduvex-db/src/query/param.rs:132-174 | `7-$1` with any negative number: the lexer sees only the 7 |
| `SqlTemplate.CommentedOutIff` | moduvex-db/src/query/param.rs:132-174 | a comment on the last line, with any parameters in it, disappears exactly when none of them has a line break |
| `SqlTemplate.TextOneLine` | moduvex-db/src/query/param.rs:43-59 | a text parameter has a line break in its literal exactly when the text has one |
| `SqlTemplate.ApostrophesToggle` | moduvex-db/src/query/param.rs:141-150 | comments are not known to substitution: what follows text without dollars is taken for the inside of a string exactly when that text has an odd number of apostrophes |
| `QueryBuilder.SubstituteFills` | moduvex-db/src/query/param.rs:132-174 | substituting into a template fills its slots with the literals and changes nothing else |
| `QueryBuilder.FilledReadsBack` | moduvex-db/src/query/param.rs:43-59 | lexing a filled template finds the clause text and each parameter value, and no comment |
| `QueryBuilder.QueryIsTemplate` | moduvex-db/src/query/builder.rs:126-160 | every validated query builds such a template |
| `QueryBuilder.InlinedQueryMeansTheSame` | moduvex-db/src/query/builder.rs:166-169 | inlining a validated query never fails and puts the i-th literal where the i-th placeholder was |
| `QueryBuilder.InlinedQueryReadsBack` | moduvex-db/src/query/builder.rs:166-169 | reading the inlined query back recovers every text parameter as one string with its value |
| `QueryReading.SelectReadsBack` | moduvex-db/src/query/builder.rs:126-160 | whatever words stand in the places of the values, a reader of SELECT statements finds the query and those words |
| `QueryReading.TemplateReadsBack` | moduvex-db/src/query/builder.rs:126-160 | a reader of SELECT statements reads the built template of every validated query as that query: columns, table, conditions, order, limit, offset, and the word of condition `k` as placeholder `k + 1` |
| `QueryReading.InlinedReadsBack` | moduvex-db/src/query/builder.rs:166-169 | and the inlined text as that query; the word of each condition is read as the value of its parameter exactly if that is not an infinite or undefined float |
| `QueryBuilder.Builder.Select` | moduvex-db/src/query/builder.rs:70-77 | accepts exactly the valid identifiers |
| `QueryBuilder.IdentifierExamples` | moduvex-db/src/query/builder.rs:36-47 | what is and what is not an identifier |
| `QueryBuilder.Builder.Columns` | moduvex-db/src/query/builder.rs:83-89 | accepts exactly lists of valid identifiers, and keeps the query valid |
| `QueryBuilder.Builder.WhereEq` | moduvex-db/src/query/builder.rs:95-99 | appends a condition on a valid identifier, and keeps the query valid |
| `QueryBuilder.Builder.OrderBy` | moduvex-db/src/query/builder.rs:105-109 | sets the order on a valid identifier |
| `QueryBuilder.Builder.Build` | moduvex-db/src/query/builder.rs:126-160 | builds the template with numbered placeholders and the parameters in their order |
| `QueryBuilder.Builder.BuildInlined` | moduvex-db/src/query/builder.rs:166-169 | a validated builder always inlines, to the filled template, which is read back as the query and its values (`QueryReading.InlinedReadsBack`) |
| `Multipart.FindsFirst` | moduvex-http/src/extract/multipart.rs:267-274 | byte search finds the first occurrence or says there is none |
| `Utf8.TrimWellFormed` | moduvex-http/src/extract/multipart.rs:140-152 | cutting Unicode white space off by bytes cuts whole characters |
| `Utf8.WhiteSpaceIs` | moduvex-http/src/extract/multipart.rs:140-152 | the trimmed characters are those with the property White_Space, by number |
| `Multipart.ParseContentDisposition` | moduvex-http/src/extract/multipart.rs:140-153 | the items of a disposition are read in order, Unicode white space trimmed, later ones winning |
| `Multipart.FieldsAreSlices` | moduvex-http/src/extract/multipart.rs:187-261 | on arbitrary bytes the loop ends, and the fields are made from disjoint slices of the body in its order |
| `Multipart.ParseParts` | moduvex-http/src/extract/multipart.rs:187-258 | the parse loop computes the fields behind a delimiter |
| `Multipart.ParseMultipart` | moduvex-http/src/extract/multipart.rs:170-261 | parsing is the fields behind the first delimiter, none without one |
| `MultipartRoundTrip.SeparatorFound` | moduvex-http/src/extract/multipart.rs:267-274 | the first separator behind a body is the true one, since a CR-free boundary gives it no self-overlap |
| `MultipartRoundTrip.PartsRoundTripIff` | moduvex-http/src/extract/multipart.rs:170-288 | printed parts behind any text without the delimiter come back exactly when no body contains the separator |
| `MultipartRoundTrip.BareBlankIff` | moduvex-http/src/extract/multipart.rs:276-288 | a blank line of bare line feeds ends the headers exactly when no blank line with carriage returns occurs in the rest of the body, later parts included |
| `MultipartRoundTrip.LastPartOpen` | moduvex-http/src/extract/multipart.rs:225-243 | a part without a delimiter behind it reaches to the end of the body, without one line break |
| `MultipartHeaders.DispositionReadsBack` | moduvex-http/src/extract/multipart.rs:140-153 | a printed disposition is read back into name and file name |
| `MultipartHeaders.HeadersReadBack` | moduvex-http/src/extract/multipart.rs:208-223 | a printed header block is read back |
| `MultipartHeaders.HeaderNameIff` | moduvex-http/src/extract/multipart.rs:208-223 | a header line counts exactly when its name is spelled in one of two ways; other spellings are skipped |
| `MultipartHeaders.FieldsRoundTrip` | moduvex-http/src/extract/multipart.rs:170-346 | fields with printable headers in either spelling, content types without Unicode white space around them, printed with a CR-free boundary behind any text without the delimiter, are parsed back exactly when the separator occurs in no body |
| `Scheduler.WrapKeepsSlot` | moduvex-runtime/src/executor/scheduler.rs:62-116 | 256 divides 2^64, so a wrapping index keeps its slot |
| `Scheduler.SlotsDiffer` | moduvex-runtime/src/executor/scheduler.rs:62-116 | different offsets below the capacity are different slots |
| `Scheduler.LocalQueue.Len` | moduvex-runtime/src/executor/scheduler.rs:64-66 | the wrapping difference is the number of items |
| `Scheduler.LocalQueue.Push` | moduvex-runtime/src/executor/scheduler.rs:84-92 | appends at the back, or hands the item back when 256 are held |
| `Scheduler.LocalQueue.Pop` | moduvex-runtime/src/executor/scheduler.rs:95-103 | takes the last item |
| `Scheduler.LocalQueue.DrainFront` | moduvex-runtime/src/executor/scheduler.rs:107-116 | moves an ordered prefix |
| `Scheduler.GlobalQueue.PushHeader` | moduvex-runtime/src/executor/scheduler.rs:137-140 | appends |
| `Scheduler.GlobalQueue.Pop` | moduvex-runtime/src/executor/scheduler.rs:143-145 | takes the first |
| `Scheduler.GlobalQueue.StealBatch` | moduvex-runtime/src/executor/scheduler.rs:150-169 | moves the first headers in order until the batch is done or the local queue is full |
| `Scheduler.StealConservesIff` | moduvex-runtime/src/executor/scheduler.rs:150-169 | stealing conserves all headers exactly when the batch fits the free space |
| `Scheduler.StealTakesHalf` | moduvex-runtime/src/executor/scheduler.rs:150-169 | a batch that fits takes half of the headers, rounded down, and a single one |
| `Scheduler.StealLosesOne` | moduvex-runtime/src/executor/scheduler.rs:150-169 | otherwise exactly the header behind the last one that fitted is lost |
| `Scheduler.StealFrom514` | moduvex-runtime/src/executor/scheduler.rs:150-169 | an idle worker that steals from 514 headers drops the one at index 256 |
| `Executor.PollKeeps` | moduvex-runtime/src/executor/task.rs:205-238 | polling an owned unfinished task keeps the table sound and no task polled after its end |
| `Executor.HeaderKeeps` | moduvex-runtime/src/executor/mod.rs:121-150 | handling any header, duplicate or stale, keeps that, and forgets no scheduled task |
| `Executor.Exec.NextTask` | moduvex-runtime/src/executor/mod.rs:167-169 | local queue first, last in first out, then the shared queue |
| `Executor.Exec.HandleHeader` | moduvex-runtime/src/executor/mod.rs:126-149 | a cancelled task is cancelled, a completed one removed, any other owned one polled |
| `Executor.Exec.Drain` | moduvex-runtime/src/executor/mod.rs:120-150 | draining does what the specification of the loop says, and ends with empty queues |
| `Executor.Exec.PollRoot` | moduvex-runtime/src/executor/mod.rs:100-113 | timers, then the root future until it is ready |
| `Executor.Exec.RunQueues` | moduvex-runtime/src/executor/mod.rs:115-160 | exit tests, queues and park do what the specification says; when it leaves is `Executor.RunReturnsIff` |
| `Executor.Exec.BlockOn` | moduvex-runtime/src/executor/mod.rs:92-164 | every run follows the specification; no task is polled after it ended; it has returned exactly when the root has its output and no task is left, and then every task ever spawned has finished |
| `Executor.RunIsSafe` | moduvex-runtime/src/executor/mod.rs:92-164 | the same for every script of user behaviour, from every reachable table |
| `Executor.RunReturnsIff` | moduvex-runtime/src/executor/mod.rs:92-164 | a run is still going on exactly while the root has no output or a task is left |
| `ExecutorOrder.DrainOrder` | moduvex-runtime/src/executor/mod.rs:120-169 | a pass handles the local queue from the back, then the shared queue from the front, whatever the tasks do meanwhile |
| `ExecutorOrder.ScheduledIsPolled` | moduvex-runtime/src/executor/mod.rs:120-150 | a task that is scheduled when a pass begins is polled in it, unless it is aborted |
| `ExecutorOrder.RunKeepsRounds` | moduvex-runtime/src/executor/mod.rs:100-160 | in every run each round drives the timers, then polls the root unless it was ready before, and parks only if it polled no task |
| `Executor.ParksOnlyIdle` | moduvex-runtime/src/executor/mod.rs:157-160 | when the loop may park, every unfinished task is idle: no scheduled task was lost |
| `Executor.SelfWakeIsLost` | moduvex-runtime/src/executor/waker.rs:163-184 | an instance: a task that wakes itself while it is polled is not queued by that wake |
| `Executor.WakeQueuesIff` | moduvex-runtime/src/executor/waker.rs:163-184 | a wake queues a task exactly when it is idle |
| `Executor.AbortCancelsIff` | moduvex-runtime/src/executor/task.rs:270-287 | an abort ends a task exactly when it is idle or scheduled |
| `Executor.PendingPollQueuesIff` | moduvex-runtime/src/executor/task.rs:205-238 | after a pending poll with any effects the task is idle, and queued exactly if it was queued before or its header was pushed by hand: wakes during the poll do not count |
| `Executor.StrandedNeverReturns` | moduvex-runtime/src/executor/mod.rs:92-164 | while nothing queues it again, a task without a header is never polled and `block_on` does not return |
| `Executor.YieldStrandsTheRun` | moduvex-runtime/src/executor/mod.rs:92-164 | a run from the empty table: the root spawns a task and is done, the task yields by waking itself, and unless something else wakes it `block_on` never returns |
| `Executor.StrandedByAbortOrSelfWake` | moduvex-runtime/src/executor/task.rs:270-287 | `abort` on an idle task and a poll that relies on its own wake strand the task |
| `Executor.AbortDropsIff` | moduvex-runtime/src/executor/task.rs:270-287 | a pass drops a cancelled task exactly when a header of it was queued or pushed by hand |
| `Migration.Connection.ApplyMigration` | moduvex-db/src/migrate/mod.rs:61-77 | statement by statement inside a transaction, with any ending of any statement, does what the one-step function says, the state of the connection included |
| `Migration.Connection.ApplyPending` | moduvex-db/src/migrate/mod.rs:52-84 | the loop over the files computes the loop function |
| `Migration.Connection.RunMigrations` | moduvex-db/src/migrate/mod.rs:42-85 | the run loop over a connection, usable or not, computes the run function and what the connection is good for afterwards |
| `Migration.RunConsistent` | moduvex-db/src/migrate/mod.rs:42-85 | whatever fails, whatever the files and the connection, committed schema changes are exactly the recorded migrations |
| `Migration.RunExtendsPrefix` | moduvex-db/src/migrate/mod.rs:42-85 | for fixed files a run, failing anywhere, moves along the sorted list; a run that reports has applied all of it, with applied + skipped = total; without failing statements it reports exactly on a usable connection |
| `Migration.CrashesThenCleanRun` | moduvex-db/src/migrate/mod.rs:42-85 | any failed attempts, over old or new connections, and a clean run leave the database of one clean run; a further run applies and changes nothing |
| `Migration.CleanRunCompletesIff` | moduvex-db/src/migrate/mod.rs:42-85 | on any database and any file list a run without failing statements reports exactly when every file is recorded already or can be recorded in its turn; otherwise it leaves a failed transaction open |
| `Migration.FirstRunCompletesIff` | moduvex-db/src/migrate/mod.rs:42-85 | so on a fresh database it completes exactly when no version repeats and every version is below 2^63 |
| `Migration.OneFailure` | moduvex-db/src/migrate/mod.rs:42-85 | a run with one refused statement: which files are applied, and that the connection can be used again after every refusal except that of a record |
| `Migration.StuckUntilReconnect` | moduvex-db/src/migrate/mod.rs:42-85 | on a connection with a failed transaction no later run changes or reports anything |
| `Migration.ReportMeansAppliedIff` | moduvex-db/src/migrate/mod.rs:53-85 | a run that reports has applied every file exactly when no file hides behind the recorded version of another |
| `Migration.SecondRunHidesDuplicate` | moduvex-db/src/migrate/mod.rs:53-85 | two files of one version: the first run leaves a failed transaction open, and the second run reports nothing to do although one file was never applied |
| `Migration.SortSorts` | moduvex-db/src/migrate/runner.rs:27-37 | sorting by version yields a sorted permutation |
| `Migration.DistinctFilesLoad` | moduvex-db/src/migrate/runner.rs:45-86 | files with distinct versions, read in any order, load into a strictly sorted list |
| `MigrationRace.AloneIsRun` | moduvex-db/src/migrate/mod.rs:42-85 | one process alone, statement by statement, ends with the database and the result of the run function |
| `MigrationRace.StepSound` | moduvex-db/src/migrate/runner.rs:7-8 | no lock: every statement of every process, ending in any way, keeps committed equal to recorded, no version twice, and every process in order |
| `MigrationRace.RaceIsSound` | moduvex-db/src/migrate/runner.rs:7-8 | the same after every interleaving of any number of processes with any files; a process that reports has all its versions recorded and every file counted once |
| `MigrationRace.RaceKeepsPrefix` | moduvex-db/src/migrate/runner.rs:7-8 | processes with the same files apply them in order and once, whatever the interleaving and the failures, and when one reports all are applied |
| `MigrationRace.LoserIff` | moduvex-db/src/migrate/mod.rs:60-66 | inserting the record fails exactly when another process committed that file after this one fetched |
| `MigrationRace.SomeoneReports` | moduvex-db/src/migrate/mod.rs:42-85 | they cannot all lose: when no statement fails and every process is over, one has reported and every file is applied |
| `MigrationRace.LostRace` | moduvex-db/src/migrate/runner.rs:7-8 | a race in which no statement fails and the second process still returns an error |
| `TraceIds.MixBits` | moduvex-observe/src/trace/mod.rs:32-39 | the step-by-step rewriting computes the mixing function |
| `TraceIds.UnshiftShift` | moduvex-observe/src/trace/mod.rs:32-39 | a shift by at least 22 bits xored into a 64-bit word can be undone |
| `TraceIds.MulInverse` | moduvex-observe/src/trace/mod.rs:32-39 | multiplication by an invertible word modulo 2^64 is undone by its inverse |
| `TraceIds.MixBijective` | moduvex-observe/src/trace/mod.rs:32-39 | mixing is a bijection on 64-bit words, with an explicit inverse |
| `TraceIds.MixZero` | moduvex-observe/src/trace/mod.rs:32-39 | only zero is mixed to zero |
| `TraceIds.SpanIdsCollideIff` | moduvex-observe/src/trace/mod.rs:57-63 | span ids collide exactly when clock plus counter agree, so never for one clock reading |
| `TraceIds.TraceIdsDetermineOrigin` | moduvex-observe/src/trace/mod.rs:41-49 | a trace id determines both clock and counter |
| `TraceIds.TraceIdsDistinctInProcess` | moduvex-observe/src/trace/mod.rs:41-49 | no two of 2^64 successive trace ids are equal, whatever the clock does |
| `TraceIds.TraceIdZero` | moduvex-observe/src/trace/mod.rs:41-49 | the all-zero trace id comes only from a zero clock and a zero counter |
| `TraceIds.IdSource.GenerateSpanId` | moduvex-observe/src/trace/mod.rs:57-63 | advances the counter by one and mixes clock plus counter |
| `TraceIds.IdSource.GenerateTraceId` | moduvex-observe/src/trace/mod.rs:41-49 | advances the counter by one and mixes both halves: the high half is the span id of the same draw, the low half is mixed from it |
| `Traceparent.FromHexHex` | moduvex-observe/src/trace/mod.rs:51-69 | fixed-width hexadecimal is read back |
| `Traceparent.FromHexReadBack` | moduvex-starter-web/src/tracing_middleware.rs:56-83 | a number that was read is written back unchanged exactly when it was lowercase and unsigned |
| `Traceparent.FormatParses` | moduvex-starter-web/src/tracing_middleware.rs:45-95 | parsing inverts formatting, for all flags, exactly when neither id is zero |
| `Traceparent.FormatShape` | moduvex-starter-web/src/tracing_middleware.rs:85-95 | what is written is version 00 with 32, 16 and 2 lowercase digits between dashes |
| `Traceparent.TraceIdIsOneNumber` | moduvex-observe/src/trace/mod.rs:51-55 | a trace id is written as one number of 128 bits |
| `Traceparent.CallerIsRead` | moduvex-starter-web/src/tracing_middleware.rs:122-131 | a header another instance wrote is taken over unless an identifier in it is zero |
| `Traceparent.ParsedFormatsBackIff` | moduvex-starter-web/src/tracing_middleware.rs:45-95 | a header that parses is written back unchanged exactly when it uses lowercase digits and dashes only |
| `Traceparent.PlusAccepted` | moduvex-starter-web/src/tracing_middleware.rs:78-83 | a flags field with a plus sign is accepted |
| `Utf8.BoundaryIff` | moduvex-starter-web/src/tracing_middleware.rs:56-62 | in well-formed text the character boundaries are the positions without a continuation byte |
| `Traceparent.PanicsIff` | moduvex-starter-web/src/tracing_middleware.rs:45-62 | parsing text panics exactly when there are four parts, the first is the version, and the second has 32 bytes with a character across its middle |
| `Traceparent.PanicsOnText` | moduvex-starter-web/src/tracing_middleware.rs:45-62 | a family of such headers |
| `Traceparent.Handle` | moduvex-starter-web/src/tracing_middleware.rs:122-157 | the response carries the caller trace and flags, or a fresh sampled trace, with a fresh span, and is read back as that exactly if no fresh id is zero; there is none if reading the caller header panics |

## Left out

- Sockets, TLS, the reactor, timers, signals, file reading and the Postgres wire protocol: reads are byte chunks, opens and pings are outcomes, the database is a transactional value.
- HTTP/1, HTTP/2, the WebSocket handshake, extractors other than multipart, `extract_boundary`, macros, configuration, metrics and JSON: no property as hard as the ones here.
- The multi-threaded executor and liveness of any executor: a wake that meets a running task is dropped, so completion is not promised.
- Aborts and wakes from other threads in the middle of a step: in `Executor` user code acts at polls, cancellations, timers and parks.
- Pool wakers, fairness, timeouts and the refill to `min_idle`: the refill loop may take back the connection it has just released, so that goal is not guaranteed.
- Stopping modules after a hook error: the code returns without it, and `Lifecycle.Run` says exactly when nothing is stopped.
- Router.Router.NestUnder: the router holds its trees by value; that the linked nodes compute the same trees is `RadixNode`.
- RadixNode.Node.Lookup: captured text is copied, not borrowed.
- Registry.PopMax: the heap is a set of ready modules with maximum extraction; its array layout is not modelled.
- Multipart.ParseMultipart: which header blocks are UTF-8 is a parameter.
- SqlParam.SubstituteParams: how a float is printed is left open, except that it is `inf`, `-inf`, `NaN` or a decimal number with an optional minus sign and fraction.
- SqlTemplate.LexKeptIff: the lexer knows string literals and line comments; block comments, quoted identifiers, dollar-quoted and escape strings are characters to it. Placeholders inside comments of the template are covered; templates with an unclosed string, or with a placeholder inside what the lexer takes for a string, are not.
- WsEndToEnd.DeliveredInOrderIff: pings and pongs are the controls in between; close frames are `WsClosing`.
- MigrationRace.RaceIsSound: the database is one with read-committed transactions and a primary key on the version; a process that is refused or lost gives up its transaction at once.
- Migration.Connection.RunMigrations: the files are a parameter; reading the directory and the numbers in file names is not modelled.
- Traceparent.Handle: only the header path of the middleware; the span context and the log event are not modelled.
- TraceIds.MixBits: that it can be undone is all that is proved of the mixing function; how well it spreads its input is not.
- TraceIds.IdSource.GenerateTraceId: the counter is advanced by one caller at a time.
