# tmtop verification

tmtop watches CometBFT consensus from one node: it follows the event stream over a websocket, keeps a
log of votes, persists it in SQLite, and derives health metrics from both. This project models the parts
of tmtop that decide something, in Dafny 4.11, and proves what they decide for every input, every run
and every interleaving. `dafny verify dfyconfig.toml` checks the whole project.

## What is modelled

Each module follows one component. Code that changes state in place is a class or a method over an
array, tied by its postconditions to a specification function; the theorems are about that function.
SQL queries are functions over sequences of rows with the constraints the schema declares.

- `Nakamoto`, `Gini`, `TopShare`: the decentralization arithmetic. The passes over the sorted powers are
  compared with definitions that quantify over all groups of validators or all pairs of them. int64
  wrap-around is part of the model, so the results say exactly when it does harm.
- `Equivocation`: the double-vote detector with its windowed index and its capped log.
- `BlockTiming`, `StepTiming`: the ring buffers of block intervals and terminal rounds, and the time
  spent in each consensus step.
- `RoundData`, `VotingPower`: the vote log as nested maps refining a flat history, its iterators, and the
  share of voting power computed from it.
- `Crawl`, `TopologyGraph`: the depth-bounded crawl with an explicit stack, and the graph built from it.
- `Websocket`, `SubscribeQuery`: the resubscription protocol as interleaved atomic steps of one reader, any
  number of `Subscribe` calls and `Close`, under one mutex; and the text of a subscribe query with a reader for
  it, through which the protocol's promises are stated.
- `Participation`, `Streaks`: the analytics queries; `Streaks` is the gaps-and-islands query.
- `Retention`, `ConsensusStore`, `StoredPower`: cleanup under foreign keys, the store/load round trip,
  and the agreement of the SQL power sums with the in-memory ones.
- `AsnLookup`: the sorted-range lookup.

`Int64`, `Sorting`, `Sums`, `Percentages`, `FiniteSets`, `Text`, `Durations`, `Rings`, `Upserts` and
`Schema` are shared definitions: Go's fixed-width integers, the contract of `sort.Slice` with an in-place
sort that meets it, hex and decimal text, saturating time differences, capped logs, `ON CONFLICT DO
UPDATE`, and the tables.

## Where the code departs from what is said about it

The code is modelled as it is; each of these is a proved statement.

- `pkg/metrics/equivocation.go:47` says exactly one event per conflicting slot. Over every run the code logs
  one for each vote that disagrees with the vote retained when it arrives (`SlotEventsAreDisagreements`), so
  a slot gets exactly one event if and only if exactly one vote disagrees (`OneEventIff`); votes for A, B and
  B again give two (`RepeatedConflictIsLoggedTwice`).
- For any powers of positive total the Nakamoto counts are the true minima if and only if the loop's two
  int64 comparisons come out right on every prefix up to the answers (`CountsCorrectIff`). For non-negative
  powers whose total fits int64 this says that tripling the power of the smallest group with two thirds
  stays inside int64 (`CountsCorrectIffRepresentable`); that is always enough (`CountsCorrectIfSmall`), but
  with a wrapping total not necessary (`Nakamoto.WrappedTotalExample`). A single validator with the largest
  int64 power gets a 1/3 count of 0 (`Nakamoto.OverflowExample`).
- For any powers of positive total the Gini coefficient is right if and only if wrapping leaves the ratio of
  the two accumulators unchanged, or the sum wraps to 0 and all powers are equal
  (`Gini.ClosedFormCorrectIff`). When the total fits int64 this says that the weighted sum does too
  (`ClosedFormCorrectIffRepresentable`).
- For all non-negative powers of positive total the top-N share is the largest of any group of at most N if
  and only if wrapping leaves the ratio of the two accumulators unchanged, or the total wraps to 0 and the top
  power is 0 (`TopShareIsLargestIff`). It always does when the total fits int64 (`TopShareIsLargest`); of
  powers MaxInt64 and 1 the largest gets a negative share (`NegativeShareExample`).
- The crawl converts both average rates to uint64 before adding them, so a negative rate sum passes the
  minimum unless the minimum is larger still (`FastEnoughIff`, `NegativeRatePasses`).
- A connection is remembered under the two IDs run together. No reported edge is lost if and only if no
  two reported pairs run together into the same text (`EdgesExactIff`); IDs of one length never do
  (`EqualLengthKeys`), others may: a table of four nodes loses an edge (`ComputeClash`).
- A subscription may be sent twice on one connection: the guarantee is at least once and at most twice, and
  it is twice if and only if the replay loop of that connection visited its ID and its own `Subscribe` call
  also wrote on that connection (`SentTwiceIff`, with a run in `SentTwice`).
- `MaxRetainBlocks = N` leaves N+1 heights if and only if all of the last N+1 are stored and the limit of
  days does not cut into them (`WithinLimitIff`; a gapless chain: `KeepsOneMoreThanLimit`).
- Repeating a cleanup at the same clock reading can remove more: it does if and only if a limit of days is
  set and a height row survived that lies more than one below all surviving recent ones (`RepeatChangesIff`,
  `RepeatCanRemoveMore`); with heights inserted in order it never does (`RepeatIdempotent`).
- `StoreValidators` leaves the block time of its height NULL, so no time-window query ever sees that
  height (`StoredHeightOutsideWindows`).
- A vote with an empty hash and a part set header counts as a vote for a block in memory but comes back
  from the database as a vote for nil (`LoadStored`, `RoundTrip`).
- Storing the same round again changes no vote but those refused the first time; it leaves the round row
  unchanged if and only if the same member of the proposer set is picked, as it always is with at most one
  (`SecondStoreIff`).
- The share of power agreeing on a block can fall while votes come in. It falls at an add if and only if
  that add is a vote for nil that overwrites a vote for a block by a listed validator with power
  (`AgreeingShareFallsIff`, `AgreeingShareCanFall`); over a run it never falls if and only if no add does
  that (`AgreeingMonotoneIff`). The share that has voted at all is monotone.
- Where ASN ranges nest, an address is missed when the last range starting at or below it ends below it
  although an earlier range reaches further. The lookup finds every covered address of a table if and only
  if no earlier range reaches into the gap between the end of a range and the next start
  (`TableCompleteIff`, stated on the bounds of the rows; `NestedRangeHides`).

## Model

| member | source | states |
|---|---|---|
| Int64.Wrap64 | pkg/metrics/enrich_decentralization.go:32 | an int64 result is the exact one when it is representable, otherwise off by 2^64 |
| Sorting.SortSlice | pkg/metrics/enrich_decentralization.go:29 | sort.Slice: in place, ordered by the comparison, the same elements |
| Sorting.SortedPowers | pkg/metrics/enrich_decentralization.go:28-29 | sorts a fresh copy and leaves the argument alone |
| Sorting.SortedUnique | pkg/metrics/enrich_decentralization.go:29 | the sorted powers do not depend on how the sort breaks ties or on the input order |
| Nakamoto.Total | pkg/metrics/enrich_decentralization.go:30-33 | the loop computes the total modulo 2^64 |
| Nakamoto.FindCounts | pkg/metrics/enrich_decentralization.go:34-45 | the loop with its break computes the specified pass over the sorted powers |
| Nakamoto.ComputeNakamoto | pkg/metrics/enrich_decentralization.go:27-46 | for non-negative powers with 0 < 3*total <= MaxInt64 both counts are the least sizes over all groups with more than 1/3 and 2/3, with 1 <= n33 <= n66 <= n; all-zero powers give 0 and 0 |
| Nakamoto.CountsIgnoreOrder | pkg/metrics/enrich_decentralization.go:28-29 | the counts do not depend on the order of the validators |
| Nakamoto.LargestAreBest | pkg/metrics/enrich_decentralization.go:25-26 | exchange argument: no group of c validators beats the c largest |
| Nakamoto.LeastTopIsNakamoto | pkg/metrics/enrich_decentralization.go:25-26 | the least sufficient prefix of the sorted powers is a minimum over all groups |
| Nakamoto.IsNakamotoReorder | pkg/metrics/enrich_decentralization.go:25-29 | the minimum group size survives reordering the validators |
| Nakamoto.NakamotoUnique | pkg/metrics/enrich_decentralization.go:25-26 | the specification fixes the count |
| Nakamoto.NakamotoOrder | pkg/metrics/enrich_decentralization.go:25-26 | any pair of minima satisfies 1 <= k33 <= k66 <= n |
| Nakamoto.ScanExactIff | pkg/metrics/enrich_decentralization.go:34-44 | the pass returns the least sufficient prefixes if and only if its int64 comparisons are exact up to them |
| Nakamoto.CountsCorrectIff | pkg/metrics/enrich_decentralization.go:34-44 | for any powers of positive total, wrapping or not, both counts are the minima if and only if the loop's comparisons come out right on every prefix up to them |
| Nakamoto.TestsExactIff | pkg/metrics/enrich_decentralization.go:37-40 | for non-negative powers with a representable total they do if and only if 3 times the smallest 2/3 prefix fits int64 |
| Nakamoto.CountsCorrectIffRepresentable | pkg/metrics/enrich_decentralization.go:34-44 | for non-negative powers with a representable total, both counts are the minima if and only if 3 times the power of the smallest 2/3 prefix fits int64 |
| Nakamoto.CountsCorrectIfSmall | pkg/metrics/enrich_decentralization.go:34-44 | for all non-negative powers of positive total that condition is enough |
| Nakamoto.WrappedTotalExample | pkg/metrics/enrich_decentralization.go:30-44 | powers MaxInt64 and 1: the total and a test wrap, and both counts are right |
| Nakamoto.CountsCorrect | pkg/metrics/enrich_decentralization.go:27-46 | no harmful overflow when 3*total fits int64 |
| Nakamoto.OverflowExample | pkg/metrics/enrich_decentralization.go:37 | one validator with MaxInt64 power gets n33 = 0 although one validator suffices |
| Gini.Accumulate | pkg/metrics/enrich_decentralization.go:56-60 | the loop computes the sum and the weighted sum modulo 2^64 |
| Gini.ComputeGini | pkg/metrics/enrich_decentralization.go:49-66 | the closed form on the wrapped accumulators; the Gini index itself for non-negative powers with n*total in int64 |
| Gini.SortedPairs | pkg/metrics/enrich_decentralization.go:57-64 | one weighted pass over the sorted powers equals the sum of absolute differences over all ordered pairs |
| Gini.ExactForm | pkg/metrics/enrich_decentralization.go:64-65 | the closed form is the sum of pair distances over 2*n*sum, over the reals |
| Gini.WeightedBound | pkg/metrics/enrich_decentralization.go:56-60 | the weighted accumulator stays between 0 and n times the sum |
| Gini.ClosedFormCorrectIff | pkg/metrics/enrich_decentralization.go:56-65 | for any powers of positive total, wrapping or not, the program's value is the index if and only if the accumulators keep their ratio, or the sum wraps to 0 and all powers are equal |
| Gini.ClosedFormCorrectIffRepresentable | pkg/metrics/enrich_decentralization.go:56-65 | for non-negative powers with a representable total the value is the index if and only if the weighted sum fits int64 |
| Gini.WrappedTotalExample | pkg/metrics/enrich_decentralization.go:56-65 | three powers of 2^62: both accumulators wrap and the value is right |
| Gini.ClosedFormSafe | pkg/metrics/enrich_decentralization.go:56-65 | n*total in int64 is enough |
| Gini.OverflowExample | pkg/metrics/enrich_decentralization.go:59 | powers 0 and MaxInt64 overflow the accumulator and give a wrong value |
| Gini.GiniRange | pkg/metrics/enrich_decentralization.go:48-66 | the index lies in [0, (n-1)/n] |
| Gini.GiniZeroIffEqual | pkg/metrics/enrich_decentralization.go:48-66 | the index is 0 exactly when all powers are equal |
| Gini.GiniIgnoresOrder | pkg/metrics/enrich_decentralization.go:54-55 | permuting the powers leaves the index unchanged |
| Gini.GiniIgnoresScale | pkg/metrics/enrich_decentralization.go:64-65 | scaling the powers leaves the index unchanged |
| TopShare.Accumulate | pkg/metrics/enrich_decentralization.go:71-77 | total and top power modulo 2^64, for any topN including negative ones |
| TopShare.ComputeTopShare | pkg/metrics/enrich_decentralization.go:68-82 | for non-negative powers of positive total, wrapping or not, the share is the largest of any group of at most topN validators if and only if wrapping keeps the ratio; always with a representable total |
| TopShare.TopShareIsLargestIff | pkg/metrics/enrich_decentralization.go:68-82 | the same condition for every topN and all non-negative powers of positive total; largest means attained by some group, beaten by none, in [0,100], and 100 when everyone is counted |
| TopShare.TopShareIsLargest | pkg/metrics/enrich_decentralization.go:68-82 | with a representable total the share is the largest |
| TopShare.LargestShareIs | pkg/metrics/enrich_decentralization.go:68-82 | the largest share over all groups is that of the topN largest validators, and no other number is |
| TopShare.NegativeShareExample | pkg/metrics/enrich_decentralization.go:71-81 | powers MaxInt64 and 1: the total wraps and the largest validator gets a negative share |
| Text.HexRoundTrip | pkg/db/consensus_store.go:320-334 | decoding the stored upper-case hex gives the hash back |
| Text.HexInjective | pkg/metrics/equivocation.go:59-70 | comparing hex strings compares the hashes |
| Text.DecimalRoundTrip | pkg/metrics/equivocation.go:35-37 | the decimal form of a round or type determines it |
| Text.MinusIff | pkg/metrics/equivocation.go:35-37 | only negative numbers are written with a minus sign |
| Equivocation.SlotKeyInjective | pkg/metrics/equivocation.go:33-37 | two slots of one height share a key only if address, round and type agree |
| Equivocation.Detector.constructor | pkg/metrics/equivocation.go:29-31 | an empty detector |
| Equivocation.Detector.Observe | pkg/metrics/equivocation.go:49-98 | after every event the index is that of the whole run and the log holds the latest 256 of all events ever emitted |
| Equivocation.Detector.Index | pkg/metrics/equivocation.go:63-85 | the first vote of a slot is kept, a disagreeing one appended to the capped log |
| Equivocation.Detector.EvictBelow | pkg/metrics/equivocation.go:92-97 | exactly the buckets below the cutoff go, in any iteration order |
| Rings.LatestAppend | pkg/metrics/equivocation.go:80-84 | truncating at every append keeps the same entries as truncating once |
| Rings.LatestIs | pkg/metrics/builder.go:148-162 | what a capped log keeps: as many as fit, the last ones, in order |
| Equivocation.LogAfter | pkg/metrics/equivocation.go:49-98 | what one more observation does to the index and to the capped log |
| Equivocation.LookupStep | pkg/metrics/equivocation.go:63-97 | what one event does to the entry of any slot, whether recorded, kept or evicted |
| Equivocation.IndexedIsRetained | pkg/metrics/equivocation.go:67-69 | an index entry is the hash of the first vote of its slot since the last eviction of its height |
| Equivocation.SurvivorIsIndexed | pkg/metrics/equivocation.go:67-97 | a vote whose height was not evicted since leaves its slot indexed |
| Equivocation.EmitsIff | pkg/metrics/equivocation.go:67-80 | a vote is logged if and only if it names another block than the retained vote of its slot |
| Equivocation.EveryEventIsBacked | pkg/metrics/equivocation.go:47-80 | every event ever emitted reports two observed non-nil votes of one slot for different blocks, and nothing else |
| Equivocation.ConflictIsEmitted | pkg/metrics/equivocation.go:47-97 | two conflicting votes of a slot with no eviction of their height between them leave, by the second vote, an event that reports two votes of that very slot |
| Equivocation.EmittedGrows | pkg/metrics/equivocation.go:80 | the log of everything emitted only grows at its end |
| Equivocation.LogHoldsLatest | pkg/metrics/equivocation.go:80-84 | over every run the log holds the last 256 of all events ever emitted, in order, or all of them if there are fewer |
| Equivocation.SlotEventsAreDisagreements | pkg/metrics/equivocation.go:47-97 | over every run, evictions included, the events of a slot are as many as its votes that disagree with the vote retained when they arrive |
| Equivocation.OneEventIff | pkg/metrics/equivocation.go:47-97 | a slot gets exactly one event if and only if exactly one of its votes disagrees |
| Equivocation.OneEventPerDisagreement | pkg/metrics/equivocation.go:47-85 | from the retained vote on, one event for each later vote that names another block, no more and no fewer |
| Equivocation.RepeatedConflictIsLoggedTwice | pkg/metrics/equivocation.go:47-85 | votes for A, B and B again give two events, against the comment's exactly one |
| Equivocation.BucketsAreRecent | pkg/metrics/equivocation.go:14-15 | with votes at most d heights late all buckets lie in [max-d-window, max] |
| Equivocation.IndexIsBounded | pkg/metrics/equivocation.go:14-15 | at most window+d+1 height buckets |
| Equivocation.FlagRows | pkg/metrics/equivocation.go:118-131 | a row is flagged exactly when it was before or a retained event names its address; nothing else in it changes |
| Equivocation.FlagsAreBacked | pkg/metrics/equivocation.go:116-131 | every address that can be flagged belongs to a validator seen voting for two blocks |
| Crawl.FastEnoughIff | pkg/topology/topology.go:104 | the uint64 test is the comparison of send+recv with the minimum if and only if the sum is non-negative or too small to pass by wrapping |
| Crawl.NegativeRatePasses | pkg/topology/topology.go:104 | a peer with a negative rate passes a minimum of 1000 |
| Crawl.EdgeIs | pkg/topology/topology.go:103-110 | an edge of the crawl, read literally: a listed peer with exactly the ID, address, URL and name of the reached node, whose rate passes |
| Crawl.StackBasedCrawl | pkg/topology/topology.go:83-114 | terminates, and returns exactly the nodes reached by a walk of at most crawlDistance fast enough edges |
| Crawl.VisitTop | pkg/topology/topology.go:93-112 | one turn of the loop: what it visits and pushes, with the remaining tree size falling |
| Crawl.PushPeers | pkg/topology/topology.go:103-111 | every fast enough peer is pushed, visited or not |
| Crawl.Expand | pkg/topology/topology.go:94-111 | replacing an item by its children keeps what will be reached and shrinks the work |
| Crawl.WithinIsReachable | pkg/topology/topology.go:83-114 | the unfolded search tree holds exactly the nodes within k edges |
| Crawl.CrawlMonotone | pkg/topology/topology.go:99-106 | a larger distance or a smaller minimum rate never loses a node |
| Crawl.WithinByRate | pkg/topology/topology.go:83-114 | on a table without negative rates the crawl finds exactly the nodes within k edges whose send+recv rate is at least the minimum |
| TopologyGraph.Graph.AddConn | pkg/topology/types.go:18-28 | a connection is kept unless its key is taken, and its key is kept afterwards |
| TopologyGraph.Graph.AddReports | pkg/topology/topology.go:59-77 | the connections one node reports to included nodes, oriented from the dialling side |
| TopologyGraph.Graph.AddNodes | pkg/topology/topology.go:47-55 | one node for every ID, in any iteration order |
| TopologyGraph.Graph.AddEdges | pkg/topology/topology.go:57-78 | the kept connections stand for everything the included nodes report, in any iteration order |
| TopologyGraph.ComputeTopology | pkg/topology/topology.go:26-81 | nodes and connections of the finished graph, from the crawls of the known requested URLs |
| TopologyGraph.IncludedIs | pkg/topology/topology.go:34-45 | the included nodes are exactly those within the distance of a known requested URL |
| TopologyGraph.ReportedIs | pkg/topology/topology.go:58-77 | the offered connections are exactly those between two different included IDs that a node reports as dialled by it (outbound) or by its peer (inbound) |
| TopologyGraph.EdgesAreDials | pkg/topology/topology.go:58-77 | every edge runs from the dialling to the dialled node of a report, and with distinct keys every such report has its edge |
| TopologyGraph.GraphIsWellFormed | pkg/topology/topology.go:47-78 | distinct node IDs, endpoints among the nodes, no self-loop, no repeated (from,to) |
| TopologyGraph.EdgesExactIff | pkg/topology/types.go:23-27 | the edges are exactly the reported pairs if and only if no two reported pairs have the same concatenation |
| TopologyGraph.EqualLengthKeys | pkg/topology/types.go:23-27 | with IDs of one length keys never clash |
| TopologyGraph.ClashReported | pkg/topology/topology.go:57-78 | a peer table of the nodes a, bc, ab and c that reports both (a,bc) and (ab,c) |
| TopologyGraph.ClashingKeysLoseAnEdge | pkg/topology/types.go:23-27 | every graph of that table lacks a reported edge |
| TopologyGraph.ComputeClash | pkg/topology/topology.go:26-81 | the run of ComputeTopology on that table loses an edge |
| Websocket.InvImpliesSafe | pkg/fetcher/comet_rpc_websocket.go:162-202 | the inductive invariant gives the safety properties |
| Websocket.LockAgreesKept | pkg/fetcher/comet_rpc_websocket.go:168-170 | mutual exclusion on muWrite is kept by every step |
| Websocket.IDsUniqueKept | pkg/fetcher/comet_rpc_websocket.go:223-224 | subscription IDs stay unique |
| Websocket.ConnPresentKept | pkg/fetcher/comet_rpc_websocket.go:172-192 | the connection is missing only while redialling or after the stop |
| Websocket.OthersLoseNone | pkg/fetcher/comet_rpc_websocket.go:194-201 | a redial owes a frame to every registered subscription; no other step loses one |
| Websocket.StepKeepsInv | pkg/fetcher/comet_rpc_websocket.go:89-259 | every enabled step keeps the whole invariant |
| Websocket.RunsAreSafe | pkg/fetcher/comet_rpc_websocket.go:89-259 | in every interleaving, whenever muWrite is free and chStop open the connection is there and every returned subscription was sent on it, by a frame whose query reads back as its events; the reader never reads a nil connection; IDs are unique; one writer at a time |
| Websocket.AcceptedUnlessBroken | pkg/fetcher/comet_rpc_websocket.go:256-258 | if every write on the live connection succeeded, every returned subscription was accepted on it, with a query that reads back as its events |
| Websocket.NothingSentAfterDone | pkg/fetcher/comet_rpc_websocket.go:204-218 | after termination the connection stays gone and no frame is written |
| Websocket.StopShortens | pkg/fetcher/comet_rpc_websocket.go:89-218 | once chStop is closed every step of the manager, except a repeated dial, brings it closer to its end |
| Websocket.HolderCanStep | pkg/fetcher/comet_rpc_websocket.go:222-233 | a call that holds muWrite can always step towards its release |
| Websocket.CloseCanFinish | pkg/fetcher/comet_rpc_websocket.go:82-218 | no deadlock: from every reachable state a call of Close has a continuation that terminates the manager without a connection |
| SubscribeQuery.AskedIff | pkg/fetcher/comet_rpc_websocket.go:250 | a reader of the query text gives back exactly the subscribed events, in order, if and only if there are some and none contains a quote |
| SubscribeQuery.EmptyQuery | pkg/fetcher/comet_rpc_websocket.go:250 | without events the query asks for an event without a name |
| Websocket.OncePerWriterKept | pkg/fetcher/comet_rpc_websocket.go:196-201 | neither the replay loop nor a call sends an ID twice on one connection |
| Websocket.VisitedAreSentKept | pkg/fetcher/comet_rpc_websocket.go:198-201 | the replay loop has sent exactly the IDs it has visited on its connection |
| Websocket.ReplayFramesIff | pkg/fetcher/comet_rpc_websocket.go:198-201 | over a run, a connection carries a replay frame for an ID if and only if its replay loop visited the ID |
| Websocket.OwnFramesIff | pkg/fetcher/comet_rpc_websocket.go:222-233 | over a run, a connection carries a call's own frame if and only if the call wrote while it was the connection |
| Websocket.SentTwiceIff | pkg/fetcher/comet_rpc_websocket.go:194-233 | in every interleaving a subscription is sent at most twice on a connection, and twice if and only if the replay visited its ID and its call also wrote there |
| Websocket.SentTwice | pkg/fetcher/comet_rpc_websocket.go:198-232 | a run in which that happens: a call registers before a redial and writes after it |
| Participation.JoinMembers | pkg/db/queries/analytics.sql:9-11 | the rows of heights LEFT JOIN votes |
| Participation.JoinRowFacts | pkg/db/queries/analytics.sql:9-11 | a joined row belongs to one height and lacks a vote exactly when the validator has none there |
| Participation.WindowedRows | pkg/db/queries/analytics.sql:11 | the window keeps exactly the rows with a known block time from start to end, both included |
| Participation.GroupedCounts | pkg/db/queries/analytics.sql:1-19 | GROUP BY counts stored and signed heights, with no double count from prevote and precommit rows |
| Participation.DistinctCounts | pkg/db/queries/analytics.sql:173-197 | COUNT(DISTINCT) over the ungrouped join counts the same heights |
| Participation.ExistsCounts | pkg/db/queries/analytics.sql:76-104 | the EXISTS form counts the same heights |
| Participation.FormulationsAgree | pkg/db/queries/analytics.sql:1-19 | for any tables the three formulations agree: the total counts the heights with a block time from start to end, signed those with a vote row, missed those without |
| Participation.OneSnapshotAtMost | pkg/db/migrations/001_initial.sql:87-98 | under UNIQUE(height, validator) the matching snapshot is the one of the key, if there is one |
| Participation.RankJoinKeepsRows | pkg/db/queries/analytics.sql:152-156 | the snapshot join neither multiplies nor drops nor reorders rows, and gives each the snapshot of its key |
| Participation.RankingCounts | pkg/db/queries/analytics.sql:127-171 | ranking counts: distinct heights as above, and exactly one count for every vote row of a type |
| Participation.JoinedVotes | pkg/db/queries/analytics_live.sql:17-24 | counting a vote type through the join counts the vote rows in the table |
| Streaks.BlockSequenceIsFaithful | pkg/db/queries/analytics.sql:46-55 | in block_sequence every stored height appears, missed ones once, in order, however ties are broken |
| Streaks.MissGroupsNumbered | pkg/db/queries/analytics.sql:56-64 | the row numbers and group numbers of the misses |
| Streaks.GroupIsIsland | pkg/db/queries/analytics.sql:61-72 | GROUP BY grp gathers one block of neighbouring misses |
| Streaks.IslandIsMaximal | pkg/db/queries/analytics.sql:56-74 | such a block spans a maximal run of missed heights |
| Streaks.StreakIsMaximalRun | pkg/db/queries/analytics.sql:65-72 | an output row carries the bounds and the number of heights of a maximal run |
| Streaks.GroupsPartition | pkg/db/queries/analytics.sql:72 | grouping loses and duplicates no miss |
| Streaks.MissedBlockStreaks | pkg/db/queries/analytics.sql:44-74 | over the heights with a block time from start to end, the query lists every maximal run of missed heights once, and the counts add up to blocks_missed of the efficiency query |
| Streaks.StreakTimes | pkg/db/queries/analytics.sql:69-70 | start and end time are the least and greatest block time among the heights of the run |
| Streaks.RunsDisjoint | pkg/db/queries/analytics.sql:44-45 | two maximal runs sharing a height are one |
| Streaks.FirstRowIsLongest | pkg/db/queries/analytics.sql:74 | the first row is the longest run; there is none exactly when nothing was missed |
| Streaks.LongestStreak | pkg/analytics/analytics.go:215-219 | over the heights with a block time from start to end, the reported longest streak is attained and exceeded by no run, and 0 exactly when no height was missed |
| Streaks.RunQuery | pkg/db/queries/analytics.sql:44-74 | the query computed with one of the orderings the engine may choose; so it has a result on every table |
| Retention.Database.DeleteConsensusEventsOlderThan | pkg/db/queries/consensus_events.sql:1-25 | fails unchanged or removes the old events only |
| Retention.Database.DeleteVotesOlderThan | pkg/db/queries/votes.sql:54-55 | fails unchanged or removes the old votes only |
| Retention.Database.DeleteValidatorSnapshotsOlderThan | pkg/db/queries/validator_snapshots.sql:34-35 | fails unchanged or removes the old snapshots only |
| Retention.Database.DeleteRoundsOlderThan | pkg/db/queries/rounds.sql:32-33 | fails unchanged or removes the old rounds only |
| Retention.Database.DeleteHeightsOlderThan | pkg/db/queries/heights.sql:25-26 | refused while a child row needs a height below the cutoff, otherwise removes the old heights only |
| Retention.Database.RunDeletes | pkg/db/db.go:187-203 | the five deletes up to the first that the storage fails |
| Retention.Database.CleanupOldData | pkg/db/db.go:178-204 | wherever it stops every foreign key holds; no foreign key error arises; without a positive cutoff nothing happens |
| Retention.ComputeCutoffHeight | pkg/db/db.go:206-246 | the higher of the two cutoffs, 0 without any, with int64 subtraction |
| Retention.CutoffIs | pkg/db/db.go:206-246 | no cutoff without a limit or without a height; a limit of blocks alone counts down from the greatest stored height |
| Retention.NoChildLeft | pkg/db/db.go:187-202 | when the heights' turn comes no child row is left below the cutoff |
| Retention.StageKeepsForeignKeys | pkg/db/db.go:187-202 | after each of the deletes every foreign key of the schema is valid |
| Retention.LatestIsGreatest | pkg/db/queries/heights.sql:7-8 | the latest height is stored and greatest |
| Retention.MinAfterIsLeast | pkg/db/queries/heights.sql:28-31 | the least height created at or after the cutoff time |
| Retention.LatestSurvivesIff | pkg/db/db.go:209-245 | the latest height survives if and only if subtracting MaxRetainBlocks does not leave int64 |
| Retention.DaysRemoveIff | pkg/db/db.go:220-231 | a limit of days alone removes a height row if and only if some row is recent and all recent rows are more than one height above it; every recent row stays |
| Retention.LimitsCombine | pkg/db/db.go:174-177 | both limits together keep exactly the height rows that each alone would keep |
| Retention.AtMostRetained | pkg/db/db.go:206-246 | with positive heights what is left lies within the last N+1 heights and includes the latest |
| Retention.AtMostOneMoreThanLimit | pkg/db/db.go:217 | at most N+1 rows are left in heights |
| Retention.WithinLimitIff | pkg/db/db.go:206-246 | at most N rows are left if and only if some height of the last N+1 is not stored or the cutoff of the days lies above the oldest of them |
| Retention.KeepsOneMoreThanLimit | pkg/db/db.go:217 | every gapless chain of more than N heights is cut to exactly N+1 rows |
| Retention.CleanupIdempotent | pkg/db/db.go:178-204 | repeating a completed cleanup with the same cutoff changes nothing |
| Retention.RepeatChangesIff | pkg/db/db.go:178-246 | with the cutoff computed anew at the same clock reading, a second cleanup changes something if and only if a limit of days is set and a stale height row survived the first |
| Retention.RepeatIdempotent | pkg/db/db.go:178-246 | with heights inserted in order a second cleanup at the same clock reading changes nothing |
| Retention.RepeatCanRemoveMore | pkg/db/db.go:178-246 | a backfilled table from which a second cleanup removes one more height |
| Retention.CleanupRemovesExactly | pkg/db/db.go:187-203 | after the first n of the five deletes exactly the rows below the cutoff are gone, from the first n of events, votes, snapshots, rounds and heights; a completed cleanup has made all five |
| RoundData.AddRefines | pkg/types/round_data.go:101-142 | adding to the nested maps refines adding to the flat history |
| RoundData.RoundDataMap.constructor | pkg/types/round_data.go:30-35 | an empty log |
| RoundData.RoundDataMap.UpsertRoundData | pkg/types/round_data.go:172-189 | creates an empty round only when it is missing, and changes nothing else |
| RoundData.RoundDataMap.AddVote | pkg/types/round_data.go:126-142 | the vote becomes the last one of its slot |
| RoundData.RoundDataMap.AddProposer | pkg/types/round_data.go:101-107 | the proposer joins the set of its round |
| RoundData.RoundDataMap.GetVote | pkg/types/round_data.go:144-170 | classifies the block ID last added for the slot, and agrees with VoteStateFromVotesMap |
| RoundData.RoundDataMap.GetProposers | pkg/types/round_data.go:109-124 | exactly the proposers added for the round |
| RoundData.RoundDataMap.Iter | pkg/types/round_data.go:71-84 | visits every touched (height, round) once in lexicographic order with its data; a consumer that stops sees exactly those up to its last visit |
| RoundData.RoundDataMap.IterRounds | pkg/types/round_data.go:77-81 | the rounds of one height, up to the consumer's last visit |
| RoundData.RoundDataMap.ReverseIter | pkg/types/round_data.go:86-99 | the same visits in descending order, with the same early stop |
| RoundData.RoundDataMap.ReverseIterRounds | pkg/types/round_data.go:92-96 | the rounds of one height from the last, up to the consumer's last visit |
| RoundData.OppositeOrders | pkg/types/round_data.go:71-99 | two complete iterations are exact reverses |
| RoundData.AddCometBFTEvents | pkg/types/state.go:183-194 | votes and proposers are added in event order, everything else ignored |
| RoundData.AddsFollowEvents | pkg/types/state.go:183-194 | the adds correspond one to one and in order to the new-round and vote events, field by field, and no such event is left out |
| VotingPower.VotingPowerPercent | pkg/types/state.go:361-393 | the percentage is the share of the validators with some vote of the slot in the log, or, without disagreeing votes, of those whose last one is for a block |
| VotingPower.VotedPowerIs | pkg/types/state.go:373-383 | the voted power is that of exactly the listed validators with such a vote in the log, the agreeing power of those whose last one is not for nil |
| VotingPower.LastVoteIs | pkg/types/round_data.go:144-170 | the last vote of a slot, found by its position in the log |
| VotingPower.PowerOfAll | pkg/types/state.go:374-376 | the total is the power of all of them |
| VotingPower.VoteStays | pkg/types/round_data.go:141 | a voted slot stays voted whatever is added |
| VotingPower.VotedPowerBounds | pkg/types/state.go:373-383 | 0 <= agreeing <= voted <= voted later <= total |
| VotingPower.ShareMonotone | pkg/types/state.go:361-393 | over any run the voted share never falls, stays in [0,100] and is at least the agreeing share |
| VotingPower.AgreeingShareFallsIff | pkg/types/round_data.go:138-141 | an add lowers the agreeing share if and only if it is a nil vote overwriting a vote for a block of a listed validator with power |
| VotingPower.AgreeingMonotoneIff | pkg/types/state.go:361-393 | over a run the agreeing power never falls if and only if no add of the run does that |
| VotingPower.AgreeingShareCanFall | pkg/types/round_data.go:138-141 | a run in which it falls to 0 |
| Upserts.FindUpsert | pkg/db/queries/votes.sql:29-36 | an upsert sets its key and no other |
| Upserts.UpsertTwice | pkg/db/queries/votes.sql:29-36 | a second upsert of a key leaves what it alone would leave |
| Upserts.UpsertUnique | pkg/db/migrations/001_initial.sql:59 | an upsert keeps the unique constraint |
| ConsensusStore.LoadStored | pkg/db/consensus_store.go:98-104 | the hash comes back from its column; the vote state does if and only if the vote is nil or has a hash |
| ConsensusStore.LoadedIs | pkg/db/consensus_store.go:320-334 | NULL and a text that is not hex load as a vote for nil, and no loaded vote has a part set header |
| ConsensusStore.Store.StoreRoundData | pkg/db/consensus_store.go:47-120 | a failing round upsert changes nothing; otherwise the round row and the votes the storage accepts are upserted and nothing else changes |
| ConsensusStore.Store.StoreVotes | pkg/db/consensus_store.go:84-116 | the double loop in any iteration order, skipping the votes of unknown validators and those the storage refuses |
| ConsensusStore.Store.StoreVotesOf | pkg/db/consensus_store.go:85-115 | the inner loop stores the accepted votes of its validator and touches no other key |
| ConsensusStore.StoredVoteIs | pkg/db/consensus_store.go:84-116 | the row of an accepted vote: NULL for a nil vote, otherwise its hash in upper-case hex |
| ConsensusStore.OtherRowsStay | pkg/db/consensus_store.go:84-116 | rows of other rounds, unknown validators and refused keys stay as they were |
| ConsensusStore.LoadRoundDataMap | pkg/db/consensus_store.go:285-343 | no log without the list of rounds; otherwise the log of the rounds in range whose votes can be read, the others skipped with their proposers |
| ConsensusStore.LoadRound | pkg/db/consensus_store.go:311-339 | one stored round: its proposer and its votes |
| ConsensusStore.LoadFinds | pkg/db/consensus_store.go:285-343 | every slot of the loaded log holds the vote row of its key, if its round is stored, readable and in range |
| ConsensusStore.GoodTablesKept | pkg/db/consensus_store.go:47-120 | storing keeps the unique votes and rounds and the int32 ranges that loading relies on |
| ConsensusStore.RoundTrip | pkg/db/consensus_store.go:47-343 | storing then loading gives every accepted vote of a known validator the same hash, and the same state if and only if the vote is nil or has a hash |
| ConsensusStore.NothingInvented | pkg/db/consensus_store.go:285-343 | a vote that was neither stored now nor before is not loaded |
| ConsensusStore.LaterVersionWins | pkg/db/queries/votes.sql:29-36 | storing a later version leaves, for the round row and for every vote key it is accepted for, what storing it alone would leave; a refused vote keeps its earlier row |
| ConsensusStore.SecondStoreIff | pkg/db/consensus_store.go:67-116 | storing the same version again changes no vote but those refused the first time, and leaves the round row unchanged if and only if the same proposer is picked, as with at most one |
| ConsensusStore.LoadProposers | pkg/db/consensus_store.go:311-314 | the loaded proposers of a round are those of its row, if it is readable and in range |
| ConsensusStore.ProposerRoundTrip | pkg/db/consensus_store.go:67-314 | storing then loading gives exactly the picked proposer: a member of the stored set, none if and only if the set is empty |
| ConsensusStore.StoreKeepsForeignKeys | pkg/db/migrations/001_initial.sql:40-61 | storing never leaves a dangling reference |
| StoredPower.StoreValidators | pkg/db/consensus_store.go:123-196 | the height, validator and snapshot rows after the loop, and nothing else changed; a refused height row rolls back, a refused validator row is skipped with its snapshot, a refused snapshot alone |
| StoredPower.AcceptedShrinks | pkg/db/consensus_store.go:163-191 | refusing more rows keeps fewer validators, refusing none keeps them all |
| StoredPower.AcceptedAre | pkg/db/consensus_store.go:163-191 | the accepted validators are exactly those at the positions that are not refused |
| StoredPower.StoredHeightRows | pkg/db/consensus_store.go:126-136 | the stored height keeps the creation time of an existing row and has no block time and proposer; every other height row stays |
| StoredPower.StoredValidatorRows | pkg/db/consensus_store.go:139-167 | the last listed validator of an address decides its row, every other row stays |
| StoredPower.StoredSnapshotRows | pkg/db/consensus_store.go:170-191 | the same for the snapshots of the height; those of other heights stay |
| StoredPower.StoredValidatorsMirror | pkg/db/consensus_store.go:139-192 | with distinct addresses the snapshots of the height are exactly the validators whose snapshots were accepted, with their powers |
| StoredPower.PowerIsQualified | pkg/db/queries/votes.sql:46-52 | the sum over joined vote rows counts every voting validator once |
| StoredPower.TotalOfSnapshots | pkg/db/queries/votes.sql:49 | the subquery is the total power of the validators |
| StoredPower.LogHandsOutItsRound | pkg/types/round_data.go:71-84 | the round data the log hands out says what the log's history says |
| StoredPower.StoredRowsMatchLog | pkg/db/consensus_store.go:84-116 | a stored row carries a hash exactly when the log has a vote for a block |
| StoredPower.DatabaseAgreesWithLog | pkg/db/queries/votes.sql:38-52 | after storing, the SQL power, total and share equal the in-memory agreeing ones over the validators with a snapshot (all of them when no row is refused), if their votes are accepted, and the power is at most the total |
| StoredPower.StoredHeightOutsideWindows | pkg/db/consensus_store.go:126-132 | a height stored this way has no block time and lies outside every time window |
| Durations.Sub | pkg/metrics/builder.go:122 | a time difference is exact when an int64 duration can hold it |
| BlockTiming.Builder.constructor | pkg/metrics/builder.go:46-62 | empty timing state |
| BlockTiming.Builder.Observe | pkg/metrics/builder.go:110-130 | after every call the fields are those of the run and the rings its latest 200 entries |
| BlockTiming.Builder.RecordHeight | pkg/metrics/builder.go:120-126 | what leaving a height appends to the rings |
| BlockTiming.AppendRing | pkg/metrics/builder.go:148-162 | append, then keep the latest 200 |
| BlockTiming.StateOfStay | pkg/metrics/builder.go:110-130 | during a stay the state holds its first clock reading and its greatest round so far |
| BlockTiming.LogsDescribeStays | pkg/metrics/builder.go:110-130 | over every run with a running clock entry k of both logs describes the stay that ascent k ended: its duration and its greatest round |
| BlockTiming.AscentsAre | pkg/metrics/builder.go:120 | the ascents are exactly the observations above a real height just before, in order |
| BlockTiming.RingsDescribeLastStays | pkg/metrics/builder.go:110-162 | over every run with a running clock both rings have one entry for each of the last 200 ascents, in order: the duration and the greatest round of the stay it ended |
| BlockTiming.IntervalsTelescope | pkg/metrics/builder.go:120-128 | while heights never fall all intervals add up to the time from the first real height to the last change |
| StepTiming.StepAccumulator.constructor | pkg/metrics/steptiming.go:31 | empty accumulators |
| StepTiming.StepAccumulator.ObserveForStepTiming | pkg/metrics/steptiming.go:37-56 | each accumulator holds exactly the time, modulo 2^64, and the number of intervals of its steps |
| StepTiming.StepAccumulator.AddSample | pkg/metrics/steptiming.go:45-52 | the sample goes to the bucket of the step that ended and to no other |
| StepTiming.AccumulatorsAre | pkg/metrics/steptiming.go:37-56 | the same by step name: propose; prevote and prevote wait; precommit and precommit wait |
| StepTiming.SamplesAre | pkg/metrics/steptiming.go:37-56 | one sample for each event of these steps with a clock reading and a successor |
| StepTiming.TimeSplits | pkg/metrics/steptiming.go:33-56 | with a monotone clock the time in any steps and outside them adds up to the time from first to last event |
| StepTiming.TimeIsConserved | pkg/metrics/steptiming.go:33-56 | with a monotone clock the three accumulators, by step name, and all other time share out the time from first to last event |
| StepTiming.NoTotalWraps | pkg/metrics/steptiming.go:23 | under the same conditions no accumulator overflows |
| StepTiming.AverageBrackets | pkg/metrics/steptiming.go:24-29 | total over count truncated toward zero, also for a wrapped negative total; 0 without samples |
| AsnLookup.Lookup.constructor | pkg/asn/asn.go:83-86 | the ranges are the loaded rows ordered by start |
| AsnLookup.Lookup.Find | pkg/asn/asn.go:92-119 | the last range starting at or below the address, if it reaches the address |
| AsnLookup.Resolve | pkg/asn/asn.go:92-119 | number and organisation of the found range; nothing for a missing or empty table and for an unparsable address |
| AsnLookup.Lookup.Search | pkg/asn/asn.go:105-108 | the first index whose range starts after the address |
| AsnLookup.CandidateContains | pkg/asn/asn.go:114-118 | a successful lookup returns a range that contains the address, whatever the table |
| AsnLookup.SearchCompleteIff | pkg/asn/asn.go:101-118 | the lookup succeeds exactly when some range contains the address, if and only if no later range ends below it before the next starts |
| AsnLookup.TableCompleteIff | pkg/asn/asn.go:83-118 | the search finds every covered address of the table if and only if no earlier range reaches into the gap between the end of a range and the next start |
| AsnLookup.NestedRangeHides | pkg/asn/asn.go:101-118 | two nested ranges with a covered address the search misses |
| AsnLookup.SearchIsScan | pkg/asn/asn.go:83-119 | on disjoint well-formed ranges the search returns the very row a linear scan of the unsorted rows returns |

## Left out

- Floating point: shares, the Gini coefficient and percentages are reals; IEEE and big.Float rounding, SQL ROUND and the standard deviation are not modelled.
- The filter of enrichDecentralization for validators without a CometBFT entry, and its early return on an empty list.
- The efficiency ratios, MAX(voting_power), RANK and the final ORDER BY of the ranking queries, and the window bounds MIN/MAX(block_time) of the uptime query: easy once the counts are known.
- GetValidatorConsensusParticipation, GetValidatorPerformanceTimeSeries (which counts a height once per vote row), vote arrival times and proposer shares.
- int64 overflow of SQL sums, SQLite itself, row IDs, signatures and timestamps, monikers, operator addresses and public keys; transactions are atomic.
- StoredPower.StoreValidators: which rows the storage refuses is a parameter; the reasons are not modelled.
- ConsensusStore.Store.StoreRoundData: besides missing references, which rows the storage refuses is a parameter; the reasons are not modelled.
- ConsensusStore.LoadRoundDataMap: the rounds and votes come in table order, which makes no difference under the unique constraints; which reads fail is a parameter.
- ConsensusStore.LoadStored: the part set header of a block ID is not stored by the program, so only hash and vote state come back.
- RoundData.RoundDataMap.Iter: the deep copies against aliasing; rounds are values here, so nothing can alias them.
- Retention.Database.CleanupOldData: the clock and the calendar are a cutoff time parameter; read errors and concurrent writers are not modelled.
- Retention.RepeatChangesIff: for one clock reading; a second cleanup at a later time is not covered.
- Websocket.CloseCanFinish: that some continuation terminates; fairness, whether a blocked read returns and timeouts are not covered.
- Websocket.RunsAreSafe: delivery of events to mailboxes and wrap-around of the ID counter are not covered; a name with a quote cannot be read back from a query, so there the frame is only said to carry the built text.
- Websocket.SentTwiceIff: the network; a frame counts as sent once it is handed to WriteJSON.
- Equivocation.ConflictIsEmitted: which two votes of the slot the event pairs is stated by EmitsIff instead.
- BlockTiming.IntervalsTelescope: needs gaps that an int64 duration can hold; longer ones saturate.
- TopologyGraph.ComputeTopology: the peer table is fixed during the crawl; peer URLs are given, not parsed from remote addresses.
- AsnLookup.Lookup.constructor: parsing the file.
- AsnLookup.Resolve: net.ParseIP; the address comes parsed, or as None.
- ComputeTopologyDOT, graph layout and shortest paths; HTTP, RPC and Cosmos clients, genesis decoding, terminal and web interfaces, configuration and logging.
- The insides of Set, SyncMap, SortedMap and Mailbox from github.com/brynbellomy/go-utils: only their plain contracts are used.
