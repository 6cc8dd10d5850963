# Verified models of the archive's algorithmic cores

A Dafny model of the parts of this archive that are algorithms or protocols, with proofs of what
they are for:

- **graphify**: greedy Louvain community detection (`Sums`, `RealSums`, `GoMaps`, `KnowledgeGraphs`,
  `Partitions`, `Modularity`, `LouvainRuns`, `LouvainSweeps`, `Louvain`, `Sorting`, `ClusterEngines`), the bounded
  breadth-first exploration of the benchmark (`Benchmark`) and the content-addressed result cache
  (`SemanticCache`, `CacheRuns`);
- **2025/openai-tokenizer**: the byte-pair tokenizer (`Bytes`, `Texts`, `ByteSymbols`, `BytePairs`,
  `Tokenizer`);
- **mcp/core**: the token provider with double-checked locking (`TokenProvider`, `TokenOutcomes`) and the header codec
  with its base 64 and UTF-8 (`Base64`, `Utf8`, `HeaderEncoder`);
- **2025/openai**: cosine similarity (`Cosine`);
- **kubeledger**: the cost histogram (`Rounding`, `Histograms`, `HistogramExports`,
  `HistogramDumps`).

`dafny verify dfyconfig.toml` checks everything.

How the source is represented:

- Code that updates state is imperative here too: `LouvainContext`, the two cluster engines, the
  tokenizer's tables, the cache and the histogram are classes with the source's fields; loops are loops.
  Long method bodies are cut into several methods where the source has one function.
- A Go map visited with `range` is visited in an arbitrary order (`GoMaps.ListOf` promises only that
  every key comes once), so every result holds for every order. Totals read from maps are specified as
  sums over sets.
- Floating point numbers are exact: integers where the source adds up integer edge weights, reals
  elsewhere.
- What the optimizer does is recorded as a ghost history: the partitions after each visit make up a sweep,
  and the sweeps make up a `Detection`. `IsDetection` says exactly which histories the loops allow, the
  limit on the number of sweeps included. The moves alone form a run (`IsRun`), on which the potential
  argument works; scaling modularity by the squared total degree keeps it in integers.
- The token provider is a transition system: each program point of `GetAccessToken` and
  `InvalidateCache` is one atomic step, any number of threads interleave, and time passes between steps.
- What the environment decides is a parameter: whether a file operation succeeds, whether a context was
  cancelled, what a token exchange returned, how the regular expression cut a text into pieces.

## Model

| member | source | states |
|---|---|---|
| KnowledgeGraphs.KnowledgeGraph.GetEdgesById | graphify/models.go:422-439 | every edge comes once for each of its ends that is the node, so a self-loop comes twice |
| KnowledgeGraphs.KnowledgeGraph.GetNeighbors | graphify/models.go:396-407 | exactly the out-neighbours, each once, in any order |
| KnowledgeGraphs.IncidenceGivesLinkWeight | graphify/louvain.go:132-146 | adding up the listed edges by far end gives the undirected weight between two nodes, self-loops included, whatever the order |
| KnowledgeGraphs.TotalDegreeIsTwiceInnerWeight | graphify/cluster_engine.go:49-75 | the accumulated total m2 is twice the weight of the edges inside the node set, filtered or not |
| Partitions.MoveChangesPotential | graphify/louvain.go:91-104 | for any symmetric matrix, moving one node changes the within-community sum by twice the difference of its pulls |
| Partitions.GroupByCommunity | graphify/louvain.go:116-120 | the lists are exactly the members of each community, each once |
| Partitions.GroupingOfSeparateIsUnique | graphify/louvain.go:58-61 | separate nodes can be grouped in only one way, so the zero-weight shortcut equals grouping after no moves |
| Modularity.MoveChangesModularity | graphify/louvain.go:91-111 | a move changes modularity scaled by m2 squared by exactly twice the integer behind deltaQ |
| Modularity.DeltaQIsScaledGain | graphify/louvain.go:97-98 | deltaQ is that integer on one fixed positive scale times the resolution, so comparing increments compares integers |
| Modularity.DeltaQIsHalfTheChange | graphify/louvain.go:97-98 | the true change of modularity is exactly 2 * deltaQ / resolution |
| Modularity.ScaledModularityBounded | graphify/louvain.go:68-113 | with non-negative weights scaled modularity stays within [-m2 * m2, m2 * m2] for every partition |
| Modularity.PotentialOfOneCommunity | graphify/models.go:357-383 | one community contributes m2 times its inner weight minus its degree sum squared |
| Modularity.CalculateModularity | graphify/models.go:329-386 | the sum, over the communities that have nodes, of the share of the weight inside less the square of the share of edge ends, independent of map order; zero without weight |
| Modularity.ScoreIsTextbook | graphify/models.go:357-383 | the scaled integer form of modularity is that textbook sum |
| KnowledgeGraphs.DegreesAreEndWeights | graphify/models.go:366-369 | the degrees of some nodes add up to the weights of the edge ends at them |
| Modularity.ScoreIsModularity | graphify/models.go:346-383 | with every node assigned, the from-scratch value is the modularity the increments are about |
| LouvainRuns.GainOfImprovement | graphify/louvain.go:100-103 | an accepted move has a gain of at least 1 in integers when the resolution is positive, and at most -1 when it is negative |
| LouvainRuns.RunShiftsModularity | graphify/louvain.go:68-113 | over a whole run of n moves scaled modularity rises by at least 2n (falls, for a negative resolution) |
| LouvainRuns.RunIsBounded | graphify/louvain.go:68-113 | no run makes more than m2 * m2 moves, whatever the iteration limit |
| LouvainRuns.RunRaisesModularity | graphify/cluster_engine.go:103-151 | modularity never falls over a run and rises strictly if any node moved |
| LouvainRuns.MoveChangesScratchModularity | graphify/cluster_engine.go:128-149 | the modularity computed from scratch changes by exactly 2 * deltaQ / resolution with every move |
| LouvainRuns.RunRaisesScratchModularity | graphify/cluster_engine.go:103-151 | over a whole run the from-scratch modularity rises, strictly if any node moved |
| Louvain.ReadRow | graphify/louvain.go:129-146 | the row has exactly the linked nodes inside the filter with their weights, and the degree is the filtered degree |
| Louvain.ReadAdjacency | graphify/louvain.go:123-151 | all rows and degrees are right and the accumulated weight is the total degree |
| Louvain.Separate | graphify/louvain.go:153-158 | every node alone in the community of its position, whose total is its degree |
| Louvain.EdgesToCommunities | graphify/louvain.go:77-83 | the tally has exactly the communities of neighbours other than the node, with the right weights |
| Louvain.BestCommunity | graphify/louvain.go:85-104 | the best improving target whatever the map order, or the own community exactly when nothing improves |
| Louvain.MoveShiftsTotals | graphify/louvain.go:106-111 | the two updated totals are those of the new partition and no other total changes |
| Louvain.TotalsAfterMove | graphify/cluster_engine.go:144-149 | every communityTotalDegree entry equals the sum of its members' degrees after the update |
| Louvain.LouvainContext.constructor | graphify/louvain.go:123-168 | the context is valid for the filtered or unfiltered node set, with separate nodes |
| Louvain.LouvainContext.Visit | graphify/louvain.go:72-112 | either a best improving move of the node is made and the totals follow, or nothing changes and the node has no improving move |
| Louvain.LouvainContext.Sweep | graphify/louvain.go:69-112 | every node is visited exactly once, in the given order, each visit as above; the flag says whether any visit moved its node |
| Louvain.LouvainContext.Optimize | graphify/cluster_engine.go:94-152 | sweeps follow one another while they move something, at most maxIter of them and never fewer while the last one moved something; none without weight |
| Louvain.FallbackIsolated | graphify/louvain.go:170-176 | every node alone, the same grouping the ordinary path gives |
| Louvain.LouvainEngine.constructor | graphify/louvain.go:29-37 | non-positive resolution and iteration limit become 1.0 and 20 |
| Louvain.LouvainEngine.Execute | graphify/louvain.go:50-121 | the result groups the end of a detection on the subset, or on all nodes, with the engine's own limit on sweeps |
| LouvainSweeps.DetectionRaisesScratchModularity | graphify/louvain.go:50-121 | a detection on the whole graph ends with at least the from-scratch modularity of isolated nodes, and more if any node moved |
| LouvainSweeps.RoomyLimitReachesOptimum | graphify/louvain.go:68-113 | with non-negative weights there are at most m2 * m2 + 1 sweeps, so a limit above m2 * m2 never cuts a detection short of a local optimum |
| LouvainSweeps.QuietSweepIsOptimum | graphify/louvain.go:69-112 | a sweep that moved nothing has found a local optimum |
| LouvainSweeps.SweepsMakeRun | graphify/louvain.go:68-113 | the moves of all sweeps form one run; every sweep but the last moves at least one node and each at most all of them |
| LouvainSweeps.DetectionReachesOptimum | graphify/louvain.go:68-113 | a detection ends in a local optimum if its last sweep moved nothing, if it made fewer sweeps than allowed, or if there is no weight, however many moves it made |
| ClusterEngines.Detect | graphify/cluster_engine.go:204-212 | build, optimize and group amount to a detection on the node set with the given limit on sweeps |
| ClusterEngines.Lists | graphify/cluster_engine.go:169-178 | the lists split the nodes and are exactly the communities |
| Sorting.AtMostIff | graphify/cluster_engine.go:233 | the order on ids is the order by first difference: a prefix, or the smaller character where the two first differ |
| ClusterEngines.Order | graphify/cluster_engine.go:226-237 | keys 0 to k-1, sizes not increasing, of two members of a row the earlier a prefix of the later or smaller where they first differ, contents unchanged |
| ClusterEngines.Isolated | graphify/cluster_engine.go:184-197 | without edges every node alone, numbered so that of two rows the earlier id is a prefix or smaller where they first differ, which is what the ordinary path would find |
| ClusterEngines.LoneNodeIsCarved | graphify/cluster_engine.go:155-179 | a node without edges stays alone even when the size limit asks for a split |
| ClusterEngines.ClusterEngine.SplitCommunity | graphify/cluster_engine.go:155-179 | kept if small enough, else replaced by exactly the communities of a detection on its own nodes with at most 50 sweeps |
| ClusterEngines.ClusterEngine.Carve | graphify/cluster_engine.go:214-224 | every node in exactly one list, every list inside one community of phase 1, small ones kept, large ones split |
| ClusterEngines.MaxSizeIsLarger | graphify/cluster_engine.go:216 | the split limit is the larger of the smallest split size and the node count times the fraction without its fractional part |
| ClusterEngines.FractionsBelowOneDoNotCount | graphify/cluster_engine.go:216 | for every fraction below one the split limit is the smallest split size |
| ClusterEngines.ClusterEngine.DetectCommunities | graphify/cluster_engine.go:181-238 | a numbered, ordered partition of all nodes, members in ascending order by first difference, that refines the end of a detection with at most MaxIterations sweeps, broken up with at most 50 sweeps only where too large; in the order of the ids without edges |
| ClusterEngines.ClusterEngine2.Carve | graphify/cluster_engine2.go:84-105 | the same, splitting with the generic engine and a filter |
| ClusterEngines.ClusterEngine2.DetectCommunities | graphify/cluster_engine2.go:60-119 | the same properties, with a non-positive resolution or limit replaced by 1.0 and 20 in both phases |
| Benchmark.WithinIsReachability | graphify/benchmark.go:97-117 | the visited set is exactly the nodes some path of at most n edges leads to |
| Benchmark.LayerIsExactDistance | graphify/benchmark.go:97-117 | a frontier is exactly the nodes at distance n |
| Benchmark.ExpandFrontier | graphify/benchmark.go:98-111 | the unvisited successors of the frontier, and exactly the edges between the two, in any order |
| Benchmark.Explore | graphify/benchmark.go:86-117 | visited, frontier and collected edges after the rounds, for every depth including negative ones |
| Benchmark.CollectedEndsAreVisited | graphify/benchmark.go:104-115 | every collected edge has both ends among the visited nodes |
| Benchmark.EdgeLines | graphify/benchmark.go:131-148 | one line for the first edge with each key whose ends were visited; when all ends were, no key is dropped |
| Benchmark.EstimateLines | graphify/benchmark.go:86-148 | from seeds to lines: the filter on ends drops nothing, and with dash-free names every edge crossed gets exactly one line |
| Benchmark.KeysAreDistinct | graphify/benchmark.go:136 | without dashes in source ids and relationships a key stands for one edge |
| Benchmark.KeysAreShared | graphify/benchmark.go:136 | two edges have one key exactly when source, relationship and target joined by dashes read the same |
| Benchmark.KeysMayCollide | graphify/benchmark.go:136 | with dashes two edges may share a key |
| ByteSymbols.SymbolsDistinct | 2025/openai-tokenizer/encoder.go:211-242 | different bytes have different symbols, none of them a space |
| ByteSymbols.SymbolCodes | 2025/openai-tokenizer/encoder.go:214-236 | graphic bytes stand for themselves, the others for 256 plus the number of such bytes below |
| ByteSymbols.InitByteEncoderAndDecoder | 2025/openai-tokenizer/encoder.go:211-242 | the two tables are inverse bijections between the 256 bytes and their symbols |
| Texts.SplitUndoesJoin | 2025/openai-tokenizer/encoder.go:96-206 | splitting a joined word gives the word back when no part contains the separator |
| Texts.JoinUndoesSplit | 2025/openai-tokenizer/encoder.go:70-96 | splitting cuts at every separator and nowhere else |
| Texts.JoinOfTwo | 2025/openai-tokenizer/encoder.go:206 | joining puts one separator between neighbours, in order |
| BytePairs.GetPairs | 2025/openai-tokenizer/encoder.go:120-132 | the table holds exactly the adjacent pairs, and is empty exactly for one symbol |
| BytePairs.FindBest | 2025/openai-tokenizer/encoder.go:147-166 | the lowest-ranked adjacent pair if any has a rank, whatever the map order |
| BytePairs.BestIsUnique | 2025/openai-tokenizer/encoder.go:147-162 | with distinct ranks there is only one pair to choose |
| BytePairs.MergeLoop | 2025/openai-tokenizer/encoder.go:171-195 | the index-jumping loop is the left-to-right, non-overlapping replacement, also when both parts are equal |
| BytePairs.MergeIsGreedy | 2025/openai-tokenizer/encoder.go:171-195 | place by place: the pair is merged wherever it occurs unless its first half has just been merged, and every other symbol stays |
| BytePairs.GreedyIsUnique | 2025/openai-tokenizer/encoder.go:171-195 | there is only one such choice of places |
| BytePairs.EncodingByRounds | 2025/openai-tokenizer/encoder.go:146-204 | the encoding is reached by rounds that each merge a lowest-ranked pair of the word, until no pair has a rank |
| BytePairs.MergeKeepsText | 2025/openai-tokenizer/encoder.go:171-195 | a merge keeps the concatenation |
| BytePairs.MergeShortens | 2025/openai-tokenizer/encoder.go:171-195 | merging a pair that occurs strictly shortens the word |
| BytePairs.EncodingIsNormalForm | 2025/openai-tokenizer/encoder.go:146-204 | the end spells the same text, has no ranked pair left, and took at most n-1 rounds for n symbols |
| BytePairs.EncodingSymbols | 2025/openai-tokenizer/encoder.go:146-204 | only initial symbols and merge products ever occur |
| BytePairs.MergeWord | 2025/openai-tokenizer/encoder.go:139-204 | the loop computes the reference encoding |
| Tokenizer.Tables.constructor | 2025/openai-tokenizer/encoder.go:36-74 | loading gives inverse number tables, an empty memo table, and as the rank of a pair the number of the last line that holds it |
| Tokenizer.Tables.BytePairEncoding | 2025/openai-tokenizer/encoder.go:134-209 | remembered and fresh results are the same, and the memo table stays right |
| Tokenizer.Tables.Encode | 2025/openai-tokenizer/encoder.go:80-102 | the numbers depend only on the text's pieces, not on earlier calls, and decode to the text |
| Tokenizer.Tables.Decode | 2025/openai-tokenizer/encoder.go:104-118 | the loops compute the decoding function, unknown numbers and symbols included |
| Tokenizer.EncodingIsPiecewise | 2025/openai-tokenizer/encoder.go:87-101 | pieces are encoded one after the other |
| Tokenizer.EncodingOfPiece | 2025/openai-tokenizer/encoder.go:95-98 | a piece is encoded to the numbers of its merged symbols, in order |
| Tokenizer.DecodingIsPiecewise | 2025/openai-tokenizer/encoder.go:104-118 | numbers are decoded one after the other |
| Tokenizer.DecodingOfNumber | 2025/openai-tokenizer/encoder.go:106-114 | a known number gives one byte for each of its symbols, zero for an unknown symbol; an unknown number gives nothing |
| Tokenizer.DecodeUndoesEncode | 2025/openai-tokenizer/encoder.go:80-118 | decoding the encoding gives back the text, for every text and every way of cutting it |
| Tokenizer.CreateDecoder | 2025/openai-tokenizer/encoder.go:53-56 | the reversed table undoes the number table |
| Tokenizer.VocabRanks | 2025/openai-tokenizer/encoder.go:66-73 | line numbers are distinct ranks below the sentinel |
| Tokenizer.CreateVocab | 2025/openai-tokenizer/encoder.go:66-73 | the pairs are those of the lines and each has the number of its last line |
| Tokenizer.VocabIsLastLine | 2025/openai-tokenizer/encoder.go:66-73 | every rank is a line that holds the pair, and no later line does |
| TokenProvider.LockPreserved | mcp/core/authentication_provider.go:282-289 | no step changes the sum of channel tokens and threads in the critical section |
| TokenProvider.OnlyHolderWrites | mcp/core/authentication_provider.go:375 | cachedTokens is written only by the thread that holds the lock |
| TokenProvider.CachePreserved | mcp/core/authentication_provider.go:400-404 | what each thread's position says about the cache survives every step of every thread |
| TokenProvider.StoresAreAccountedFor | mcp/core/authentication_provider.go:381-405 | every store is accounted for exactly once: its token was removed, was replaced, or is the one cached |
| TokenProvider.ReachableInvariant | mcp/core/authentication_provider.go:381-405 | all invariants hold in every state of every behaviour |
| TokenProvider.MutualExclusion | mcp/core/authentication_provider.go:272-289 | tokens plus holders make one, one exchange at a time, and the deferred release never blocks |
| TokenProvider.CachedTokensWereLive | mcp/core/authentication_provider.go:385-402 | a token returned from the cache exists and was unexpired when checked, despite concurrent invalidation |
| TokenProvider.ExchangesAreAccountedFor | mcp/core/authentication_provider.go:381-405 | in every reachable state successful exchanges equal removals plus replacements plus the token cached plus the one about to be |
| TokenProvider.ExchangesAreBounded | mcp/core/authentication_provider.go:381-405 | they never exceed one plus removals plus expiries, each token charged once, and equal it exactly while a live token is cached or about to be |
| TokenProvider.ReplacedHadExpired | mcp/core/authentication_models.go:87-93 | a token replaced by the next event had expired when its successor was stored |
| TokenProvider.StoresAreSeparated | mcp/core/authentication_models.go:87-93 | between two stores a token was removed, or the first had expired |
| TokenProvider.EndpointIsWrittenOnce | mcp/core/authentication_provider.go:291-313 | the resolved endpoint never changes once set, and a configured one wins |
| TokenProvider.HolderCanProceed | mcp/core/authentication_provider.go:393-404 | a thread in the critical section always has a step to take |
| TokenOutcomes.ExchangedIsReturned | mcp/core/authentication_provider.go:375-404 | a thread that exchanged a token gets that token, in every interleaving |
| TokenOutcomes.FailureIsReturned | mcp/core/authentication_provider.go:344-373 | a thread that was cancelled, or whose resolution or exchange failed, gets a failure |
| TokenOutcomes.OutcomesHaveReasons | mcp/core/authentication_provider.go:381-405 | conversely a fresh token was exchanged by the same thread, a failure is its own, and whoever did neither got a cached token |
| TokenOutcomes.CachedWasExchanged | mcp/core/authentication_provider.go:375-402 | whatever is cached or returned from the cache came out of an exchange |
| TokenOutcomes.LiveTokenIsReturned | mcp/core/authentication_provider.go:385-388 | a caller that reads a token before its expiry returns that token without waiting |
| TokenOutcomes.LiveTokenIsReused | mcp/core/authentication_provider.go:400-402 | one that finds a live token after getting the lock starts no exchange |
| TokenOutcomes.ReusedIsReturned | mcp/core/authentication_provider.go:400-402 | and returns the token it checked |
| TokenOutcomes.NothingCachedUntilStored | mcp/core/authentication_provider.go:282-289 | after an invalidation nothing is cached until the next store |
| TokenOutcomes.StoredStaysCached | mcp/core/authentication_provider.go:375 | a stored token stays cached until an invalidation or the next store |
| TokenOutcomes.EndpointHasOrigin | mcp/core/authentication_provider.go:291-313 | the endpoint in use is the configured one or was discovered |
| Base64.DecodeUndoesEncode | mcp/core/protocol_encoder.go:180-183 | decoding undoes encoding for every byte string, with padding (section 4 of RFC 4648) |
| Base64.DecodesIfWellFormed | mcp/core/protocol_encoder.go:84-87 | exactly whole quads of the alphabet with at most two final paddings decode |
| Base64.EncodedChars | mcp/core/protocol_encoder.go:180-183 | encoded text has alphabet characters and padding only |
| Base64.EncodedLength | mcp/core/protocol_encoder.go:180-183 | four characters for each started group of three bytes |
| Base64.CharsOfAlphabet | mcp/core/protocol_encoder.go:181 | the characters of table 1 of RFC 4648 |
| Base64.GroupOfThree | mcp/core/protocol_encoder.go:181 | three bytes become the four digits, in base 64, of the number they write in base 256 |
| Base64.LastGroup | mcp/core/protocol_encoder.go:181 | a last group is encoded as if filled up with zeros, with padding for the digits that hold only filling |
| Base64.QuadNumber | mcp/core/protocol_encoder.go:84 | the bytes of a quad are the digits, in base 256, of the number its four values write in base 64 |
| Base64.DecodedQuad | mcp/core/protocol_encoder.go:84 | a quad is decoded to these bytes, a padded one to those left when the low bits are dropped |
| Base64.LineBreaksAreIgnored | mcp/core/protocol_encoder.go:84 | line breaks make no difference anywhere |
| Utf8.RuneOfFirstByte | mcp/core/protocol_encoder.go:171-175 | a rune is ASCII exactly when its first byte is, error runes included |
| Utf8.ValidIffEncoded | mcp/core/protocol_encoder.go:89 | a byte string is valid if and only if it is the RFC 3629 encoding of some code points |
| Utf8.DecodeUndoesEncode | mcp/core/protocol_encoder.go:171 | an encoded code point is read back, whatever follows it |
| Utf8.ErrorRuneOtherwise | mcp/core/protocol_encoder.go:171 | where no encoded code point begins, the error rune is read, one byte wide |
| HeaderEncoder.ScanIsBytewise | mcp/core/protocol_encoder.go:171-175 | the rune scan fires exactly when some byte is not printable ASCII |
| HeaderEncoder.PlainIffUnchanged | mcp/core/protocol_encoder.go:21-32 | a value is sent as it is if and only if it is empty, or printable ASCII without a blank at either end and not itself wrapped; every other one is sent as `=?base64?` and its base 64 and `?=` |
| HeaderEncoder.DecodedValue | mcp/core/protocol_encoder.go:74-98 | a header that is not wrapped is its own value; a wrapped one has the value its base 64 stands for, and none if that does not decode or is not valid UTF-8 |
| HeaderEncoder.SliceFailsIff | mcp/core/protocol_encoder.go:81-82 | decoding runs out of slice bounds for exactly one header, `=?base64?=` |
| HeaderEncoder.EncodedNeverOverlaps | mcp/core/protocol_encoder.go:81-82 | that never happens for what the encoder sends |
| HeaderEncoder.EncodedIsHeaderSafe | mcp/core/protocol_encoder.go:21-32 | what is sent is printable ASCII without blanks at the ends, and empty only for the empty value |
| HeaderEncoder.RoundTrip | mcp/core/protocol_encoder.go:21-98 | the receiver gets the value back if and only if it was absent or valid UTF-8 |
| HeaderEncoder.EncodingIsInjective | mcp/core/protocol_encoder.go:21-32 | different values are sent differently, also when one already looks wrapped |
| SemanticCache.Cache.IsChanged | graphify/cache.go:90-109 | changed, unchanged or unknown exactly by entry, file and hash |
| SemanticCache.Cache.CacheResult | graphify/cache.go:189-228 | success, or nothing changed, or only the save failed; the result is stored under the content hash and the entry points to it |
| SemanticCache.Cache.GetCachedResult | graphify/cache.go:161-187 | a miss, a failure or the stored bytes, for every combination of entry, file, hash and failure, and what happens to the index |
| SemanticCache.Cache.Invalidate | graphify/cache.go:230-240 | the path leaves the index, every other entry stays, its result file is gone if the removal succeeded and no other is, and the index is saved if that succeeded |
| SemanticCache.Cache.LoadIndex | graphify/cache.go:254-280 | a new process has the saved index if it loads and an empty one otherwise |
| SemanticCache.ResultFilesDistinct | graphify/cache.go:195 | different hashes name different result files |
| CacheRuns.PerformKeepsSound | graphify/cache.go:161-296 | every operation, with any failures, keeps each result file the result of every content with its hash |
| CacheRuns.LookupsAreCurrentIff | graphify/cache.go:161-228 | over all runs, lookups miss, fail or return the result of the current content if and only if contents that hash alike have equal results |
| CacheRuns.CollisionIsServed | graphify/cache.go:103-108 | with a colliding hash there is a run that serves a stale result |
| CacheRuns.SuccessfulUpdateIsSaved | graphify/cache.go:223-240 | after a successful update the saved index equals the one in memory |
| CacheRuns.CachedIsFound | graphify/cache.go:161-228 | what was just cached is found, also after a restart |
| CacheRuns.RunIsPersisted | graphify/cache.go:189-296 | after every run whose saves succeeded the saved index equals the one in memory |
| CacheRuns.RestartIsInvisible | graphify/cache.go:254-296 | a restart put anywhere into such a run changes nothing that follows |
| CacheRuns.CachedStaysFound | graphify/cache.go:161-228 | what was cached is found through restarts, other edits and any caching until its file is edited or something is invalidated |
| CacheRuns.InvalidatedIsMissed | graphify/cache.go:161-240 | after an invalidation the path is missed as long as it is not cached again and every later load reads an index saved since |
| Cosine.Accumulate | 2025/openai/common.go:199-220 | the mixed-length loop computes the three inner products |
| Cosine.InnerIsSum | 2025/openai/common.go:207-220 | an inner product is the sum of the products of the coordinates both vectors have |
| Cosine.CauchySchwarz | 2025/openai/common.go:198-223 | sumA squared is at most sumB times sumC, for vectors of any two lengths |
| Cosine.ZeroNormIff | 2025/openai/common.go:206-220 | an accumulated norm is zero exactly when the vector is all zeros |
| Cosine.CosineSimilarity | 2025/openai/common.go:198-223 | the cosine, within [-1, 1]; no number exactly when a vector is all zeros |
| Cosine.SimilarityIsSymmetric | 2025/openai/common.go:198-223 | swapping the vectors changes nothing |
| Cosine.SimilarityIgnoresPadding | 2025/openai/common.go:207-216 | the result is the cosine of the vectors filled up with zeros to any common length |
| Rounding.RoundIsNear | kubeledger/partman.go:285-288 | rounding moves a value by at most half a unit in the last decimal |
| Rounding.RoundHalfAwayIsNearest | kubeledger/partman.go:287 | a nearest whole number, the one farther from zero of two |
| Rounding.RoundIsWhole | kubeledger/partman.go:285-288 | a rounded value is a whole number of units in the last decimal |
| Rounding.PowersOfTen | kubeledger/partman.go:286 | the scale is 1 for no decimals and ten times more for each decimal |
| Histograms.TotalSplits | kubeledger/dump.go:278-300 | a total is what is on record plus what later calls for the same category replaced |
| Histograms.TotalsMatchIff | kubeledger/dump.go:278-300 | a usage or request total equals the sum on record if and only if every replaced call had amount 0, and is never less |
| Histograms.UsageMatchesIff | kubeledger/dump.go:278-300 | for usages, if and only if no category but billing counted twice |
| Histograms.TotalsMatch | kubeledger/dump.go:278-300 | with each category once, usage and request totals are the sums on record |
| Histograms.RepeatDoublesTheTotal | kubeledger/dump.go:293-299 | a category added twice is recorded once and totalled twice |
| Histograms.CostIsNear | kubeledger/dump.go:56-78 | every cost is its exact share, rounded, for all cost models |
| Histograms.CostByModel | kubeledger/dump.go:56-78 | a share of 100, a share of the billing rate, or the value itself, to within half a unit, and zero without a total |
| Histograms.CostIsWhole | kubeledger/dump.go:56-78 | every cost is a whole number of units in the last decimal |
| Histograms.RequestsTimesFactor | kubeledger/dump.go:288-291 | requests times factor is the usage, and without a positive factor there are none |
| Histograms.SharesAddUp | kubeledger/dump.go:66-77 | rounding errors of n shares stay within n half units |
| HistogramExports.HistogramMetrics.Add | kubeledger/dump.go:278-300 | non-positive usage changes nothing; otherwise one entry is set in both maps, no other entry changes, and the totals grow unless excluded; over any calls the maps hold the latest amounts and the totals of all |
| HistogramExports.HistogramMetrics.ExportResource | kubeledger/dump.go:163-220 | exactly one usage and one request row for each category but billing on each date, with the cost of the amount on record against the total |
| HistogramExports.ExportAddsUp | kubeledger/dump.go:169-203 | the rows of a date add up to the unit price times the sum on record, within a half unit for each row, even with repeated categories |
| HistogramExports.ExportMeetsTarget | kubeledger/dump.go:169-203 | with each category once, they add up to 100, the billing rate or the total, within a half unit for each row |
| HistogramDumps.Collect | kubeledger/dump.go:110-160 | the calls made are one for each reading and date, repeated categories included; with distinct categories no two agree in date and category |
| HistogramDumps.RateIsBillingRate | kubeledger/dump.go:170 | the rate used for a date is the billing category's positive reading, or zero |
| HistogramDumps.DumpHistogram | kubeledger/dump.go:100-226 | with distinct categories the rows are exactly the costs of the positive readings against all that was read; every date with a row hands out 100 or the billing rate, and requests do exactly when some request is known |

## Left out

- The graph library behind `KnowledgeGraph`: a graph is a set of node ids and a set of edges with at most one edge for each ordered pair. Adding nodes and edges, `AssignCommunities` and `GetDegree` are not modelled.
- Rounding, NaN and overflow of floating point numbers, and the width of Go's integers. Edge weights are unbounded integers, non-negative only where a bound on the number of moves is stated. On the exact numbers a quotient by zero is reported as absent.
- The two copies of context building and sweeping (`graphify/louvain.go` and `graphify/cluster_engine.go`) are the same code and are modelled once, by `Louvain.LouvainContext`. Its resolution is unrestricted, because `ClusterEngine` does not check it; claims that need a positive one say so.
- A bound on the size of the final communities: `int(MaxCommunityFraction)` truncates to 0 for fractions below one, and a split piece may still exceed the limit. `MaxSize` follows the code.
- `Execute` of the two cluster engines, their default options and the adapter, which only copy data.
- Strings are sequences of characters and compared by them; Go compares the bytes, which gives the same order for valid UTF-8.
- Sorting: `Sorting.Sort` stands for the library sorts; only its contract is used, and the order of equally large communities is open.
- The text side of `EstimateQueryTokens`: search terms, scores, the choice of seeds, labels and the token count. Seeds are any set, and edges collected twice are kept track of only by membership.
- Regular expressions: the tokenizer's cutting of a text into pieces is an input, assumed to give non-empty pieces that make up the text. The token file and the vocabulary file are inputs too; the assumption on them is `Tokenizer.IsComplete`.
- The tokenizer's text is a byte string; the symbols of bytes are single characters, so splitting into characters is splitting into one-character strings.
- Inside the token provider: HTTP, JSON, metadata discovery, the ID token callback and logging. An exchange is one step that may fail, the read of `cachedTokens` outside the lock is atomic, constructor validation is not modelled, and the cache is not keyed by resource. Fairness and the five seconds of `InvalidateCache` are left to the scheduler: waiting may end at any time.
- In the header codec: the encoding of booleans, numbers, arbitrary values and JSON.
- In the result cache: `Set`, `Get`, `Clear` and `Exists`, JSON text, real I/O, locks and concurrent callers. Each operation is one step; a failed write leaves the old file; a stored result is the result of the file's content at that moment.
- In the histogram: fetching, files and Prometheus gauges; one metrics object stands for the CPU and the memory one; a category whose data cannot be read is simply not among the readings.
- `graph_builder`, `source_extactor`, the trend helpers, the remaining MCP client code, the OpenAI and Ollama request mapping, the exporters, the demos and the textbook algorithms are not part of this model.
