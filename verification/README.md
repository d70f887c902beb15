# Verified models of the platform's core algorithms and protocols

This project models the parts of the platform whose correctness rests on more than one function and proves what
they are for. It is Dafny throughout; `dafny verify dfyconfig.toml` checks everything.

| files | what they model |
|---|---|
| `GraphModel`, `PageRank`, `PageRankLinks`, `ShortestPath`, `Components`, `Communities`, `CommunitySettling`, `CommunityChains`, `CommunitySwing` | the graph analytics over an edge list |
| `CoauthorLedger`, `CoauthorWrites`, `CoauthorLaws` | the coauthorship write: publications, idempotency log, edge weights, dirty scopes; the laws also under entity deletions and recomputations |
| `ClaimProtocol` | any number of enrichment workers claiming entities from one status table, beside its other writers |
| `CircuitBreaker` | the breaker's critical sections, interleaved arbitrarily |
| `MarkerText`, `MarkerRegions`, `ReadmeGuard` | the generated regions of the README and the second-render guard |
| `TfIdf`, `EntityLinker`, `EntityMerge` | duplicate detection by TF-IDF similarity, and merging the duplicates |
| `MigrationSeeding` | giving every empty table a row over a foreign-key graph with cycles |
| `OpsMonitor` | health checks, the alert policy and paging, over whole runs |
| `AccountLockout` | the failed-login counter, its deadline and the password reset |
| `BackupIds`, `BackupEvidence` | ingestion of backup evidence into the append-only event table |
| `Sets`, `RealSums`, `Wrappers` | facts about finite sets and sums of reals, and the option and result types |

Loops and objects that update state are methods and classes; each is proved equal to a function of its inputs or of
the old state, and the laws are lemmas about those functions, over every run where the claim is about runs.

Iteration over a Python set is an arbitrary choice (`:|`), so results hold for every iteration order. Floats are exact
reals, before `round`. Times are integers (microseconds) or reals. The logarithm and the square root are parameters of
which only their defining laws are used. Database rows are maps and sequences keyed as in the schema, and a commit is
atomic. Where a claim is false of the code, the project states the exact condition instead:

- `circuit_breaker.py:8-9` promises one probe in HALF_OPEN; the code admits every caller then (`ProbesOverlap`), so the
  promise holds exactly for callers that never overlap (`OneProbeExactly`). The link between the state and the failure
  run needs a threshold of at least 1 (`RefinesExactlyForPositiveThreshold`).
- A claim is meant to be exclusive. `POST /enrich/bulk-ids` and other writers set the status without looking at who
  works on the row; claims stay exclusive exactly when none of them gives a held row another status
  (`ClaimsAreExclusive`, `BulkIdsDoubleClaim`). `POST /entities/bulk-update` takes any status, and a pending row written
  as processing waits, with no worker, until a restart or a write of another status (`WriteStrands`, `StrandedExactly`).
- `write_coauthor_artifacts` is documented as idempotent. It is; but a repeated author id that is not recorded yet
  violates the publication key, so such a write fails as a whole every time. The reason stored with a dirty scope
  depends on the order of writes in one exactly described case (`ReasonsCommuteExactly`). Deleting an entity lowers no
  edge and marks no scope, so that weight without contributions can stay unmarked once the scope has been recomputed
  (`MarksKeptExactly`, `DeletionAfterRecompute`).
- Label propagation is cut off after 25 sweeps; settling can take any number of them, and with negative weights it need
  not happen at all (`ChainSettlesExactly`, `DefaultCutsOff`, `NegativeWeightsNeverSettle`).
- The second render in `run` never finds a difference. Exactly if two regions overlap it raises an error that `run`
  does not catch (`OverlapDestroysAMarker`, `Run`, `SecondRenderCanRaise`).
- A batch announcement is documented as the edge where the queue becomes empty; a lost race announces too
  (`AnnouncedExactly`, `LostRaceRun`).
- `parse_evidence_document` is documented to accept exactly its schema and never to raise. It also accepts a digest
  followed by one line feed, because `$` matches there, and a `schema_version` of `1.0` (`SchemaExactly`). It raises for
  a time that leaves the years 1 to 9999 when converted to UTC (`ParseRaisesExactly`, `YearOneRaises`).
- `ingest_backup_evidence` is documented never to raise for a document. It raises for those, for a text the database
  cannot take (a NUL on PostgreSQL, a lone surrogate), for a size beyond 64 bits, and, where LIKE has an escape
  character, for a name that ends in it; such a document stops passes at its place (`PassesCompleteExactly`,
  `PassCompletesExactly`, `RaisingFileBlocks`, `OwnRowBlocksLater`).
- `_already_recorded` narrows by LIKE without escaping the name. With an escape character in force a name that contains
  it can miss its own row, and the same document is then recorded on every pass (`SecondPassExactly`).
- `dispatch_event` is documented never to raise, but it queries the alert channels outside its `try`
  (`alert_sender.py:228-239`). A tick that cannot query them sends nothing and remembers nothing, so that an outage can
  pass without any alert (`UnseenExactly`, `SilenceExactly`), and a database outage pages exactly if the evaluation
  completes and the channels can be queried (`NewOutagePagesExactly`).
- A merge reports the length of its id list as the number of deleted rows (`ReportedDeletionsExactly`), and depends on
  the order of a query without ORDER BY in exactly described cases (`OrderMattersExactly`, `LongestOrderExactly`).

## Model

| member | source | states |
|---|---|---|
| `PageRank.Pagerank` | backend/graph_analytics.py:74-118 | the scores are the normalised k-th iterate of the power iteration, where k is the first iteration whose difference is below `tol`, or `max_iter`; an empty graph gives no scores |
| `PageRank.PowerStep` | backend/graph_analytics.py:101-109 | the nested loops over nodes and incoming edges compute one step of the iteration, in any node order, with parallel edges counted each and dangling nodes passing nothing on |
| `PageRank.NewRank` | backend/graph_analytics.py:103-109 | the inner loop over one node's predecessors computes that node's entry of the step |
| `PageRank.L1Distance` | backend/graph_analytics.py:111 | `diff` is the L1 distance of two successive iterates |
| `PageRankLinks.StepOverLinks` | backend/graph_analytics.py:101-109 | by position in the edge list: a node's next rank is (1-d)/N plus d times the sum, over the edges into it, of the source's rank divided by the number of edges out of that source |
| `PageRankLinks.StepOfSet` | backend/graph_analytics.py:101-109 | the same for any set of nodes and the edges into the set: rank travels along the edges and nowhere else |
| `PageRankLinks.UnlinkedGetsTeleport` | backend/graph_analytics.py:101-109 | a node that no edge leads to gets exactly (1-d)/N |
| `PageRankLinks.OnlyLinkingNodesCount` | backend/graph_analytics.py:101-109 | a node's next rank is the same for any two rank vectors that agree on the nodes linking to it |
| `PageRankLinks.StartIsEven` | backend/graph_analytics.py:99 | every node starts with 1/N |
| `PageRankLinks.DistanceOverNodes` | backend/graph_analytics.py:111 | the difference adds up, node by node, how far the two ranks are apart |
| `PageRankLinks.ScoresOverTotal` | backend/graph_analytics.py:116-118 | each score is the node's rank over the total of all ranks |
| `GraphModel.NodesExactly` | backend/graph_analytics.py:84-92 | the nodes are exactly the endpoints of the edges |
| `PageRank.FlowConserved` | backend/graph_analytics.py:103-109 | what all nodes receive over their incoming edges equals what the nodes with outgoing edges hold, for every multigraph |
| `PageRank.MassStep` | backend/graph_analytics.py:101-112 | each iteration's total is (1-d) plus d times the previous mass on nodes with outgoing edges |
| `PageRank.LinkedMassWithinMass` | backend/graph_analytics.py:105-108 | the mass on linked nodes lies between 0 and the whole mass |
| `PageRank.MassBounds` | backend/graph_analytics.py:99-112 | in every iteration the total stays in [1-d, 1] and every rank is at least (1-d)/N |
| `PageRank.ScoresSumToOne` | backend/graph_analytics.py:116-118 | the normalised scores sum to exactly 1 and none falls below (1-d)/N, which is positive |
| `PageRank.StepContracts` | backend/graph_analytics.py:101-112 | one iteration is an L1 contraction with factor d, on any graph and any two rank vectors |
| `PageRank.DiffShrinks` | backend/graph_analytics.py:111-114 | the k-th difference is at most 2·d^(k-1) |
| `PageRank.DefaultPowerSmall` | backend/graph_analytics.py:74-79 | 2·0.85^90 is below 1e-6 |
| `PageRank.DefaultsConverge` | backend/graph_analytics.py:74-114 | at the default parameters the tolerance break fires by iteration 91, never the `max_iter` cut-off |
| `ShortestPath.FindShortestPath` | backend/graph_analytics.py:276-320 | a result is a simple walk of real edges with matching relation labels, no walk is shorter, and None is returned exactly when no walk exists; the loop terminates |
| `ShortestPath.Expand` | backend/graph_analytics.py:304-318 | one turn of the loop returns a shortest path or keeps the search invariant and makes progress |
| `ShortestPath.BuildAdjacency` | backend/graph_analytics.py:294-296 | the adjacency lists hold exactly the hops of the edge list, in its order |
| `ShortestPath.ShortWalksAreVisited` | backend/graph_analytics.py:302-318 | when everything above a depth is expanded, every walk of at most that length ends in a visited node |
| `ShortestPath.TargetFound` | backend/graph_analytics.py:309-316 | the first hop onto the target gives a shortest simple path |
| `ShortestPath.PushKeeps` | backend/graph_analytics.py:317-318 | queueing an unvisited neighbour keeps the search invariant |
| `ShortestPath.FinishKeeps` | backend/graph_analytics.py:305-318 | once a node's hops are followed it counts as expanded and the invariant holds without it |
| `Components.ConnectedComponents` | backend/graph_analytics.py:123-154 | two nodes get the same id exactly when an undirected walk joins them, and the ids are exactly 0..k-1, for any iteration order of the node set |
| `Components.Flood` | backend/graph_analytics.py:140-152 | one search from an unmarked node, marking on dequeue with duplicates in the queue, adds exactly its component under the next id |
| `Components.Mark` | backend/graph_analytics.py:145-151 | one turn of the loop keeps the flood invariant and leaves fewer unmarked nodes |
| `Components.FloodDone` | backend/graph_analytics.py:144-152 | when the queue is empty the newly marked nodes are exactly those connected to the seed |
| `Components.ComponentSizes` | backend/graph_analytics.py:157-162 | every component id that occurs is mapped to the number of its nodes, and the sizes add up to the number of nodes |
| `Components.SizesSumToNodes` | backend/graph_analytics.py:157-162 | the class sizes of any labelling add up to the number of labelled nodes |
| `Communities.DetectCommunities` | backend/graph_analytics.py:165-216 | the result numbers the labels after k sweeps, k being the first sweep that changes nothing or `max_iter`, and nodes of one community are always connected |
| `Communities.RunSweep` | backend/graph_analytics.py:188-205 | the in-place sweep over the sorted nodes equals the sweep function, and `changed` says exactly whether a label moved |
| `Communities.RelabelNode` | backend/graph_analytics.py:190-205 | relabelling one node changes its label to the best one and no other label |
| `Communities.ChooseLabel` | backend/graph_analytics.py:195-202 | the label chosen is the smallest among those with the highest total weight |
| `Communities.Normalise` | backend/graph_analytics.py:209-216 | equal labels get equal ids, different labels different ids, numbered in order of first appearance |
| `Communities.RelabelKeepsAnchors` | backend/graph_analytics.py:195-205 | relabelling a node keeps every label a node of its bearer's component |
| `Communities.SweepKeepsAnchors` | backend/graph_analytics.py:188-205 | so does a sweep over any list of nodes |
| `Communities.LabelsStayInComponent` | backend/graph_analytics.py:186-207 | after any number of sweeps every label is a node of its bearer's component |
| `Communities.CommunitiesRefineComponents` | backend/graph_analytics.py:165-216 | nodes of one community lie in one weakly connected component |
| `CommunitySettling.BetweenOfOne` | backend/graph_analytics.py:176-180 | a single edge puts its weight, 1 if missing or zero, between its endpoints, and a self-loop twice its weight |
| `CommunitySettling.BetweenAdds` | backend/graph_analytics.py:176-180 | weights add up over any two edge lists: parallel edges, in either direction, count together |
| `CommunitySettling.RelabelTakesHeaviest` | backend/graph_analytics.py:190-205 | a node with neighbours takes a label one of them bears, no other of their labels weighs more by those weights, and equally heavy ones are larger; other nodes keep theirs |
| `CommunitySettling.IntraChanges` | backend/graph_analytics.py:195-205 | relabelling one node changes the weight between equally labelled nodes by exactly twice what its own score gains, self-loops included |
| `CommunitySettling.BestPulls` | backend/graph_analytics.py:195-202 | with positive weights the chosen label scores more than the node's own, or as much with a smaller label |
| `CommunitySettling.RelabelImproves` | backend/graph_analytics.py:203-205 | with positive weights every change raises that weight, or keeps it and lowers the labels |
| `CommunitySettling.SweepImproves` | backend/graph_analytics.py:188-205 | so does every sweep that changes something |
| `CommunitySettling.PropagationSettles` | backend/graph_analytics.py:188-207 | with positive weights some sweep changes nothing, and on n nodes one of the first n^n does |
| `CommunityChains.ChainSettlesExactly` | backend/graph_analytics.py:188-207 | the chain of m edges with growing positive weights settles after exactly m sweeps, so no fixed number of sweeps is enough |
| `CommunityChains.ChainIsCutOff` | backend/graph_analytics.py:165-216 | whatever `max_iter`, a longer such chain comes out as more than one community although further sweeps make it one |
| `CommunityChains.DefaultCutsOff` | backend/graph_analytics.py:165-168 | the default of 25 cuts off the chain of 26 edges one sweep early |
| `CommunitySwing.NegativeWeightsNeverSettle` | backend/graph_analytics.py:176-207 | positive weights cannot be dropped: on a graph of four edges with negative ones no sweep ever settles |
| `MarkerText.JoinUndoesSplit` | scripts/generate_repo_metrics.py:526-534 | joining the split lines gives the text back |
| `MarkerText.SplitUndoesJoin` | scripts/generate_repo_metrics.py:526-534 | splitting joined lines gives the same lines back |
| `MarkerText.RenderInert` | scripts/generate_repo_metrics.py:387-464 | no rendered line of derived metrics is a marker or contains a line break, for all eleven renderers |
| `MarkerText.VersionBadgesShowMetrics` | scripts/generate_repo_metrics.py:387-409 | each version badge shows the version it is named after |
| `MarkerText.CountBadgesShowMetrics` | scripts/generate_repo_metrics.py:412-420 | the badges for tests and API operations show those counts |
| `MarkerText.TestLinesShowMetrics` | scripts/generate_repo_metrics.py:423-449 | the three test lines show the numbers of files and tests in front of the words for them |
| `MarkerText.StackLinesShowMetrics` | scripts/generate_repo_metrics.py:427-435 | the two stack lines show the versions behind their names |
| `MarkerText.DecimalMeans` | scripts/generate_repo_metrics.py:412-449 | a count is written as the decimal numeral that means it |
| `MarkerText.MajorEndsAtDot` | scripts/generate_repo_metrics.py:394-409 | a major version is what stands in front of the first dot |
| `MarkerRegions.FindMarkers` | scripts/generate_repo_metrics.py:469-480 | the two dictionaries list, for each slug, exactly the line numbers of its BEGIN and of its END markers in strictly ascending order |
| `MarkerRegions.MarkersExactly` | scripts/generate_repo_metrics.py:71-72 | a line is the BEGIN or END marker of a slug if and only if it is that comment around that slug |
| `MarkerRegions.ParseMarkerRegions` | scripts/generate_repo_metrics.py:483-517 | success means every slug is marked exactly once with BEGIN before END and no unknown slug occurs; each error is explained by the lines |
| `MarkerRegions.ErrorsAreFinal` | scripts/generate_repo_metrics.py:497-514 | where an error is explained by the lines, no result could have been right |
| `MarkerRegions.LocateRegion` | scripts/generate_repo_metrics.py:505-515 | the three guards on one slug accept exactly a delimited region and blame correctly |
| `MarkerRegions.SplicesAssemble` | scripts/generate_repo_metrics.py:529-532 | index stability: for pairwise disjoint regions the back-to-front splices give the front-to-back text |
| `MarkerRegions.OutsideKept` | scripts/generate_repo_metrics.py:520-534 | all lines outside the regions keep their content and order |
| `MarkerRegions.OutsideExactly` | scripts/generate_repo_metrics.py:520-534 | the lines kept are, one by one, those that lie strictly inside no region |
| `MarkerRegions.MarkersKept` | scripts/generate_repo_metrics.py:529-532 | rendering disjoint regions neither adds nor removes a marker line |
| `MarkerRegions.MovedRegions` | scripts/generate_repo_metrics.py:529-532 | in the rendered text the regions are again in order, disjoint and inside the list |
| `MarkerRegions.AssembleAbsorbs` | scripts/generate_repo_metrics.py:520-534 | a second rendering overwrites the first one completely |
| `MarkerRegions.RenderedParses` | scripts/generate_repo_metrics.py:483-534 | the rendered text parses to the same slugs at their moved places |
| `MarkerRegions.BeginIsErased` | scripts/generate_repo_metrics.py:530-532 | a region that starts inside the previous one loses its BEGIN marker |
| `MarkerRegions.OverlapDestroysAMarker` | scripts/generate_repo_metrics.py:483-534 | when two parsed regions overlap, the rendered text does not parse |
| `MarkerRegions.OverlapParses` | scripts/generate_repo_metrics.py:483-517 | such lines exist: for any two or more slugs, all BEGIN lines followed by all END lines parse and overlap |
| `ReadmeGuard.OrderIsUnique` | scripts/generate_repo_metrics.py:530 | the order of the regions by BEGIN line is unique |
| `ReadmeGuard.SortRegions` | scripts/generate_repo_metrics.py:530 | the regions are listed in that order |
| `ReadmeGuard.SpliceAll` | scripts/generate_repo_metrics.py:530-532 | the in-place splices from the last region to the first give the back-to-front function |
| `ReadmeGuard.RenderReadme` | scripts/generate_repo_metrics.py:520-534 | the result is a rendering of the text, or the marker error explains itself |
| `ReadmeGuard.RenderLinesAgain` | scripts/generate_repo_metrics.py:520-567 | for disjoint regions: render(render(x,m1),m2) = render(x,m2), with the same outside lines |
| `ReadmeGuard.RenderedRegionsHoldContent` | scripts/generate_repo_metrics.py:520-534 | in the rendered text of disjoint regions each region holds exactly one line, the rendered content of its slug |
| `ReadmeGuard.RenderingAgain` | scripts/generate_repo_metrics.py:554-561 | a rendered text can be rendered again exactly when its regions were pairwise disjoint, and then only the last metrics show |
| `ReadmeGuard.Run` | scripts/generate_repo_metrics.py:540-567 | the "not idempotent" exit is never taken; the marker guard stops exactly texts that do not parse, the second render raises exactly for texts that parse with overlapping regions, and all others are rendered |
| `ReadmeGuard.OneParse` | scripts/generate_repo_metrics.py:483-517 | a text parses in at most one way, so it is separated, or entangled, or does not parse |
| `ReadmeGuard.EntangledTextsExist` | scripts/generate_repo_metrics.py:554-560 | for any two or more slugs some text parses with overlapping regions |
| `ReadmeGuard.SecondRenderCanRaise` | scripts/generate_repo_metrics.py:554-560 | so does some text for the eleven slugs of the generator: its second render raises |
| `CircuitBreaker.Breaker.CurrentState` | backend/circuit_breaker.py:135-145 | the state cools down to HALF_OPEN exactly when OPEN for at least the recovery timeout |
| `CircuitBreaker.Breaker.Admit` | backend/circuit_breaker.py:100-112 | the first critical section admits exactly when the cooled state is not OPEN |
| `CircuitBreaker.Breaker.RecordFailure` | backend/circuit_breaker.py:147-159 | the second critical section after a failure moves the fields as the step function does |
| `CircuitBreaker.Breaker.RecordSuccess` | backend/circuit_breaker.py:161-172 | the second critical section after a success closes the breaker and clears the count |
| `CircuitBreaker.Breaker.Reset` | backend/circuit_breaker.py:123-131 | reset makes the breaker like new |
| `CircuitBreaker.CounterRefinesHistory` | backend/circuit_breaker.py:94-172 | over every interleaving of admissions, settlements, state reads and resets, `failure_count` is the trailing run of failures since the last reset and CLOSED means that run is shorter than the threshold |
| `CircuitBreaker.RefinesExactlyForPositiveThreshold` | backend/circuit_breaker.py:54-66 | this law holds on all runs if and only if the threshold is at least 1 |
| `CircuitBreaker.AdmissionAfterCoolDown` | backend/circuit_breaker.py:94-145 | in every interleaving an admission while not CLOSED comes at least the recovery timeout after the latest recorded failure |
| `CircuitBreaker.AdmittedExactly` | backend/circuit_breaker.py:100-145 | in every interleaving and for every threshold, by the log and the clock alone: a call is let in if and only if the log ends with fewer failures than the threshold (at least one) or the recovery timeout has passed since the latest of them |
| `CircuitBreaker.CounterForAnyThreshold` | backend/circuit_breaker.py:147-159 | for every threshold the counter is the trailing run of failures, and CLOSED means it is below the threshold, or zero |
| `CircuitBreaker.LoneCallerPace` | backend/circuit_breaker.py:94-159 | a non-overlapping caller of a failing service pays one recovery timeout for every call beyond the threshold |
| `CircuitBreaker.LoneCallerBound` | backend/circuit_breaker.py:94-159 | so it makes at most threshold + floor(T / recovery timeout) calls by time T |
| `CircuitBreaker.AdmissionAfterTripExactly` | backend/circuit_breaker.py:100-172 | within the recovery timeout of its latest trip the breaker lets a call in if and only if a call succeeded or a reset came since |
| `CircuitBreaker.ProbesOverlap` | backend/circuit_breaker.py:8-9 | the documented single probe fails: for every k there is a run with k probes in flight at once, for any threshold and timeout |
| `CircuitBreaker.ProbesBoundedExactly` | backend/circuit_breaker.py:100-121 | with at most n calls under way at once there are never more than m probes, in every run, if and only if n is at most m |
| `CircuitBreaker.OneProbeExactly` | backend/circuit_breaker.py:8-9 | the documented single probe holds in every run if and only if callers never overlap |
| `CoauthorLedger.Session.Write` | backend/enrichment_worker.py:407-511 | the whole write equals the write function, and fails with nothing changed exactly when an author not yet recorded for the entity is listed twice |
| `CoauthorLedger.UpsertPublications` | backend/enrichment_worker.py:464-479 | publications gain exactly the missing authors with their first position, or the primary key is violated |
| `CoauthorLedger.LogPairs` | backend/enrichment_worker.py:481-508 | each pair is logged once, and exactly the pairs new to the log raise their edge by one |
| `CoauthorWrites.PublicationsWritten` | backend/enrichment_worker.py:444-475 | after a write the entity has a publication for exactly the authors it had and the first fifteen listed, all in the request's scope (NULL organisation 0, empty domain default), with old positions kept |
| `CoauthorWrites.PositionsWritten` | backend/enrichment_worker.py:442-475 | a new publication carries the 1-based position at which its author is first listed |
| `CoauthorWrites.ContributionsWritten` | backend/enrichment_worker.py:461-493 | the entity has a contribution for every pair of those authors, and keeps its earlier ones unless it moves to another scope |
| `CoauthorWrites.WeightsWritten` | backend/enrichment_worker.py:481-508 | an edge weight grows by one exactly for such a pair in the scope that the entity had not contributed, or had contributed in another scope |
| `CoauthorWrites.MarksWritten` | backend/enrichment_worker.py:455-511 | the scope is marked for enrichment and, if the entity moves, the scope it leaves for reassignment; no other mark changes |
| `CoauthorWrites.FailsExactly` | backend/enrichment_worker.py:464-479 | the write fails if and only if one of the first fifteen authors is listed twice and not yet recorded |
| `CoauthorLaws.RunSound` | backend/enrichment_worker.py:407-511 | after any sequence of writes, entity deletions and recomputations: one scope per entity, contributions backed by publications with a < b, each edge weight equal to its contributions plus those deleted by a reassignment or with their entity, and that excess only in scopes so left |
| `CoauthorLaws.SoundKept` | backend/enrichment_worker.py:407-511 | every single change keeps this law |
| `CoauthorLaws.DeleteIsSound` | backend/models.py:1223-1233 | in particular deleting an entity, which takes its contributions and publications along and lowers no edge |
| `CoauthorLaws.BalanceKept` | backend/enrichment_worker.py:455-508 | every write that goes through keeps weight = contributions + lost, edge by edge |
| `CoauthorLaws.ScopesKept` | backend/enrichment_worker.py:451-475 | all publications of the written entity share its scope afterwards, other entities' rows stay, and no publication disappears |
| `CoauthorLaws.ContributionsKept` | backend/enrichment_worker.py:461-493 | each contribution stays backed by publications of both authors in its scope |
| `CoauthorLaws.WriteKeepsMarks` | backend/enrichment_worker.py:455-462 | where weight in excess of contributions occurs only in marked scopes, a write keeps it so |
| `CoauthorLaws.MarksKeptExactly` | backend/coauthorship/recompute.py:46-78 | one change keeps the excess in marked scopes if and only if it is a write, deletes an entity whose contributions lie in marked scopes, or recomputes a scope without excess |
| `CoauthorLaws.MarkedThroughoutExactly` | backend/services/data_lifecycle.py:232-268 | the excess stays in marked scopes throughout a run if and only if every change meets that condition at its turn |
| `CoauthorLaws.MarkedUntilRecomputed` | backend/enrichment_worker.py:455-511 | so it does in every run of writes and deletions: every write marks its scope |
| `CoauthorLaws.DeletionAfterRecompute` | backend/coauthorship/recompute.py:125-130 | after a scope is recomputed, deleting any entity that contributed to it leaves weight that no mark points at |
| `CoauthorLaws.WriteTwice` | backend/enrichment_worker.py:407-511 | repeating a write changes nothing, whether it went through or failed |
| `CoauthorLaws.WritesCommute` | backend/enrichment_worker.py:407-511 | writes for different entities give the same publications, contributions, weights and dirty scopes in either order |
| `CoauthorLaws.ReasonsCommuteExactly` | backend/enrichment_worker.py:455-511 | the reasons on dirty scopes commute too if and only if neither write enqueues a scope the other one leaves |
| `CoauthorLaws.OtherWriteIsInvisible` | backend/enrichment_worker.py:451-493 | a write leaves the publications and contributions of other entities alone |
| `CoauthorLaws.CreditedTotal` | backend/enrichment_worker.py:497-508 | crediting n new pairs raises the total weight by n |
| `CoauthorLaws.PairsCount` | backend/enrichment_worker.py:484-487 | k authors make k(k-1)/2 pairs |
| `CoauthorLaws.FirstWriteIsNovel` | backend/enrichment_worker.py:481-508 | the first write of an entity credits all its pairs, and its retained authors are distinct |
| `CoauthorLaws.FirstWriteWeight` | backend/enrichment_worker.py:481-508 | after any history, deletions included, the first write of an entity with k retained authors adds exactly k(k-1)/2 to the total weight |
| `ClaimProtocol.StatusTable.SelectPending` | backend/enrichment_worker.py:325-331 | some pending entity is selected, or none exists |
| `ClaimProtocol.StatusTable.UpdateIfPending` | backend/enrichment_worker.py:335-342 | the guarded UPDATE matches exactly when the row is still pending and changes nothing else |
| `ClaimProtocol.StatusTable.AtomicClaimNext` | backend/enrichment_worker.py:314-348 | undisturbed, the two statements claim a pending entity, or there is none and nothing changes |
| `ClaimProtocol.StatusTable.ResetStaleProcessingRecords` | backend/enrichment_worker.py:297-311 | exactly the processing rows become pending again, and are counted |
| `ClaimProtocol.StatusTable.SelectForBulk` | backend/enrichment_worker.py:1009-1017 | the query picks the none and failed rows in id order, from `skip` on, at most `limit` of them |
| `ClaimProtocol.WindowByRank` | backend/enrichment_worker.py:1009-1017 | a row is picked if and only if it is none or failed and at least `skip`, but fewer than `skip` + `limit`, such rows have smaller ids |
| `ClaimProtocol.StatusTable.WritePending` | backend/enrichment_worker.py:1018-1024 | the loop makes exactly the picked rows pending, whatever their status is by then |
| `ClaimProtocol.StatusTable.TriggerEnrichmentBulk` | backend/enrichment_worker.py:998-1024 | with nothing in between, exactly the picked none and failed rows become pending |
| `ClaimProtocol.StatusTable.EnrichBulkByIds` | backend/routers/entities.py:553-575 | the named rows become pending, completed ones only if forced, and both counts are right |
| `ClaimProtocol.ClaimsAreExclusive` | backend/enrichment_worker.py:314-348 | in every interleaving of any number of workers, no two hold the same entity and held ones that still exist are processing throughout the run, if and only if no outside write (the bulk-ids endpoint, the update endpoints, scrapers, merges, requeueing) gives an entity held at that moment another status |
| `ClaimProtocol.ExclusiveAfterExactly` | backend/routers/entities.py:567-574 | step by step: exclusive claims stay exclusive if and only if the step is no such write |
| `ClaimProtocol.StepKeepsExclusive` | backend/enrichment_worker.py:314-348 | every other step keeps claims exclusive |
| `ClaimProtocol.TransitionHasOneOwner` | backend/enrichment_worker.py:333-348 | a pending-to-processing transition is one worker's UPDATE of one row, and that worker then holds it, or an outside write of that very status, which changes no worker |
| `ClaimProtocol.StatusChangesExactly` | backend/enrichment_worker.py:297-348 | step by step: which statement gives an existing row another status, and which one |
| `ClaimProtocol.WriteStrands` | backend/routers/entities.py:393-417 | writing the status processing to a pending row that nobody holds strands it: processing with no worker |
| `ClaimProtocol.StrandedExactly` | backend/routers/entities.py:393-417 | one step: a stranded row stays stranded if and only if the step is no restart, no write of another status to it and no deletion of it |
| `ClaimProtocol.StrandedStays` | backend/enrichment_worker.py:297-348 | over every run without such a step it stays stranded, whatever the workers do |
| `ClaimProtocol.NothingClaimedNothingChanged` | backend/enrichment_worker.py:331-346 | a worker whose turn claims nothing changed no status |
| `ClaimProtocol.LeavesPendingExactly` | backend/enrichment_worker.py:333-348 | an entity leaves the queue if and only if it is claimed or diverted (overwritten with any other status, deleted, or finished by a holder although pending again), never both |
| `ClaimProtocol.ClaimsMatchEnqueues` | backend/enrichment_worker.py:314-348 | over every run, each time an entity was enqueued it was claimed once, or diverted once, or it still waits |
| `ClaimProtocol.NothingDiverted` | backend/enrichment_worker.py:314-348 | when nobody gives held rows another status and nobody overwrites or deletes the entity itself, nothing is diverted |
| `ClaimProtocol.BatchesAddUp` | backend/enrichment_worker.py:35-41 | what a worker has announced plus its running count is the number of its turns that ended with a claim |
| `ClaimProtocol.AnnouncedExactly` | backend/enrichment_worker.py:35-41 | a batch is announced exactly when the running count is positive and a turn claims nothing: an empty SELECT or a lost race |
| `ClaimProtocol.LostRaceAnnounces` | backend/enrichment_worker.py:884-899 | the announcement does not mean that the queue is empty: after a lost race every other pending row is still there |
| `ClaimProtocol.LostRaceRun` | backend/enrichment_worker.py:884-899 | from any two idle workers and two waiting rows such a run exists: the loser announces its batch and every other pending row still waits |
| `ClaimProtocol.LateBulkWriteExactly` | backend/enrichment_worker.py:1019-1023 | with other steps between the bulk read and its unguarded write, claims stay exclusive if and only if no worker holds one of the rows by then |
| `ClaimProtocol.LateBulkWriteDoubleClaim` | backend/enrichment_worker.py:1019-1023 | and otherwise an idle worker can take a held row as well |
| `ClaimProtocol.BulkIdsDoubleClaim` | backend/routers/entities.py:567-574 | the same after the bulk-ids endpoint has named a held row, forced or not |
| `TfIdf.DocFreqBounds` | backend/entity_linker.py:59-63 | a document frequency is at most the number of documents, and positive exactly for tokens of the vocabulary |
| `TfIdf.IdfAtLeastOne` | backend/entity_linker.py:76 | every inverse document frequency is at least 1 |
| `TfIdf.DocFreqExactly` | backend/entity_linker.py:59-63 | the document frequency is the number of documents that contain the token, each counted once |
| `TfIdf.CommonIdfIsOne` | backend/entity_linker.py:76 | a token that every document contains has inverse document frequency exactly 1 |
| `TfIdf.IdfDifference` | backend/entity_linker.py:76 | two tokens differ by the logarithm of (df2+1)/(df1+1) |
| `TfIdf.RarerIsWorthMore` | backend/entity_linker.py:76 | a token is worth strictly more than another if and only if it is strictly rarer |
| `TfIdf.WeightExactly` | backend/entity_linker.py:68-77 | an entry is count over length times log((N+1)/(df+1)) + 1 |
| `TfIdf.EntriesInRatio` | backend/entity_linker.py:68-82 | two tokens equally frequent in a document have entries in the ratio of their inverse document frequencies |
| `TfIdf.NonEmptyRowHasNorm` | backend/entity_linker.py:68-82 | every non-empty document has a row that is not zero |
| `TfIdf.UnitRow` | backend/entity_linker.py:79-82 | after normalisation every such row has length exactly 1 |
| `TfIdf.SimilarityIsSymmetric` | backend/entity_linker.py:118 | similarity is symmetric |
| `TfIdf.SimilarityIsCosine` | backend/entity_linker.py:79-118 | similarity times the lengths of both weight vectors is their dot product |
| `TfIdf.SimilarityRange` | backend/entity_linker.py:118 | similarity lies in [0, 1], and is 0 if and only if the documents share no token |
| `TfIdf.SimilarityOneExactly` | backend/entity_linker.py:54-82 | similarity is 1 if and only if every token has the same relative frequency in both documents |
| `TfIdf.EqualTokensGiveOne` | backend/entity_linker.py:54-82 | documents with equal token multisets have similarity 1 |
| `EntityLinker.CountDocuments` | backend/entity_linker.py:56-63 | `vocab` numbers exactly the tokens of the documents without gaps, and `df` holds their document frequencies |
| `EntityLinker.FillRow` | backend/entity_linker.py:68-77 | one pass over the token counts fills a row with its weights, leaving zeros for absent tokens and other rows alone |
| `EntityLinker.NormaliseRow` | backend/entity_linker.py:79-82 | a row is divided by its own Euclidean norm |
| `EntityLinker.BuildTfidf` | backend/entity_linker.py:54-82 | row i of the matrix is the unit vector of document i, whatever order the tokens were numbered in |
| `EntityLinker.RowProduct` | backend/entity_linker.py:118 | an entry of matrix @ matrix.T is the sum over all columns |
| `EntityLinker.ColumnSum` | backend/entity_linker.py:118 | a sum over numbered columns is the sum over the tokens, in any numbering |
| `EntityLinker.ScanPairs` | backend/entity_linker.py:124-143 | the nested loop finds exactly the pairs i < j that are similar enough and not dismissed, in scan order |
| `EntityLinker.SortBySimilarity` | backend/entity_linker.py:145 | sorting keeps the same candidates, higher similarity first and equal ones in scan order |
| `EntityLinker.CommonTokens` | backend/entity_linker.py:141 | the tokens shown are shared, at most twelve, and every shared token left out comes after twelve shown ones |
| `EntityLinker.FirstTokensAreFirst` | backend/entity_linker.py:141 | that list is strictly ascending, and whatever it leaves out comes after all of it |
| `EntityLinker.LessExactly` | backend/entity_linker.py:141 | strings are ordered by the first character in which they differ, a proper prefix first |
| `EntityLinker.WithTokensInOrder` | backend/entity_linker.py:116-122 | of the rows exactly those with tokens are scanned, in their order |
| `EntityLinker.FindCandidates` | backend/entity_linker.py:85-146 | the result is the first 200 of all candidates among the rows within the limit, in that order, or all of them if they are fewer |
| `EntityMerge.EntityTable.MergeEntities` | backend/entity_linker.py:160-227 | the table after a merge is the primary with everything absorbed and the secondaries gone; a missing primary or no secondaries leave it unchanged |
| `EntityMerge.MergeFields` | backend/entity_linker.py:191-206 | the loops over fields and secondaries compute the fold of each field's values under the strategy |
| `EntityMerge.KeepPrimaryKeeps` | backend/entity_linker.py:197-198 | under keep_primary, and under any unknown strategy, the primary's value stays |
| `EntityMerge.KeepNonEmptyTakesFirst` | backend/entity_linker.py:199-202 | under keep_non_empty a filled value stays and an empty one becomes the first filled secondary value; the result is empty only if all values are |
| `EntityMerge.KeepLongestIsLongest` | backend/entity_linker.py:203-206 | under keep_longest the result is one of the values, none is longer, and on a tie the primary's own stays |
| `EntityMerge.MostCitedIsLargest` | backend/entity_linker.py:208-213 | the citation count of the merged row is the largest of all, a missing one counting as zero |
| `EntityMerge.ShareOfPrimary` | backend/entity_linker.py:191-218 | each column of the merged primary is collected from that column of the selected rows, and it is completed if and only if one of the rows is |
| `EntityMerge.OrderMattersExactly` | backend/entity_linker.py:180-202 | under keep_non_empty the merged value is independent of the order of the unordered query if and only if the primary's value is filled or all filled secondary values agree |
| `EntityMerge.LongestOrderExactly` | backend/entity_linker.py:180-206 | under keep_longest it is if and only if no two different values tie for longest above the primary's |
| `EntityMerge.RowInSteps` | backend/entity_linker.py:191-218 | absorbing two groups of rows one after the other is absorbing them at once, citations and status included |
| `EntityMerge.MergeInSteps` | backend/entity_linker.py:160-227 | the whole table after two merges into one primary is the table after one merge with both groups |
| `EntityMerge.ReportedDeletionsExactly` | backend/routers/entities.py:249-252 | the reported `deleted_count` is the number of rows deleted if and only if the ids are distinct and all exist |
| `MigrationSeeding.BuildRow` | scripts/ci_migration_rehearsal.py:171-189 | a row is built exactly when every column can be filled, the error names the first column that cannot, and each column gets the value the source gives it |
| `MigrationSeeding.TryInsert` | scripts/ci_migration_rehearsal.py:208-215 | the insert succeeds exactly when the row can be built, and only then changes anything |
| `MigrationSeeding.Pass` | scripts/ci_migration_rehearsal.py:237-240 | a pass extends the insertion order by what it fills and shares out the pending tables; an empty pass proves each of them stuck |
| `MigrationSeeding.SplitByRows` | scripts/ci_migration_rehearsal.py:230-235 | the tables are shared out into empty and populated ones |
| `MigrationSeeding.SeedEmptyTables` | scripts/ci_migration_rehearsal.py:218-244 | the loop ends, every table is exactly one of populated, seeded or failed, and failed are exactly the tables no insertion order could fill, each with the first column to blame |
| `MigrationSeeding.OrdersStayInside` | scripts/ci_migration_rehearsal.py:236-243 | no insertion order leaves a set of tables that admits no further insert |
| `MigrationSeeding.SeedingIsExact` | scripts/ci_migration_rehearsal.py:236-243 | a pass without progress leaves exactly what no order could fill |
| `MigrationSeeding.NeverFilled` | scripts/ci_migration_rehearsal.py:236-243 | a table outside such a set is unreachable |
| `OpsMonitor.AggregateStatus` | backend/ops_checks.py:45-54 | the overall status is the worst one present, with the exact counts |
| `OpsMonitor.TallyCounts` | backend/ops_checks.py:45-54 | a count is the number of checks in that state |
| `OpsMonitor.RunOperationalChecks` | backend/ops_checks.py:454-488 | the report lists the two paging checks and the others under the aggregated status, or there is none because a later check raised |
| `OpsMonitor.ReportsAreHonest` | backend/ops_checks.py:161-206 | paging checks are never in state warning, and the status reflects the checks, also in the report of a failed evaluation |
| `OpsMonitor.Monitor.RunOnce` | backend/ops_monitor.py:288-359 | a tick dispatches exactly the alert the policy asks for and updates memory and state; when an alert is due and the channels cannot be queried it raises, sends nothing and leaves memory and state as they were |
| `OpsMonitor.IncidentsAlternate` | backend/ops_monitor.py:147-167 | over every run, ticks that raise included, the degraded and recovered alerts sent strictly alternate, starting with degraded |
| `OpsMonitor.KindsAreExact` | backend/ops_monitor.py:147-167 | in every run a tick sends an alert of a kind if and only if it can query the channels and its report, that of the last tick which did not raise and the time of the latest alert call for that kind |
| `OpsMonitor.SeveritiesAreExact` | backend/ops_monitor.py:80-93 | its severity is page for a newly critical database or migrations check, else urgent for critical backups or secrets, else and for recoveries info |
| `OpsMonitor.SilenceExactly` | backend/ops_monitor.py:333-359 | an unhealthy tick ends with an alert younger than remind_after if and only if the channels can be queried on it or the last alert was that young before it |
| `OpsMonitor.NeverSilentTooLong` | backend/ops_monitor.py:163-167 | no unhealthy tick of a run ends with the last alert remind_after or more in the past if and only if each of them can query the channels or begins with an alert younger than that |
| `OpsMonitor.UnreadableOutageIsUnseen` | backend/notifications/alert_sender.py:228-239 | an outage on none of whose ticks the channels can be queried sends neither a degraded alert nor a recovered one afterwards |
| `OpsMonitor.UnseenExactly` | backend/ops_monitor.py:333-359 | an incident that starts from remembered health sends no alert if and only if none of its ticks can query the channels |
| `OpsMonitor.RemindersAreSpaced` | backend/ops_monitor.py:147-167 | the alerts of an incident beyond the first and the changes are each a full remind_after apart, ticks that raise included |
| `OpsMonitor.IncidentAlertBound` | backend/ops_monitor.py:147-167 | an incident sends at most 1 + changes + elapsed / remind_after alerts up to its recovery, ticks that raise included |
| `OpsMonitor.PagingIsExact` | backend/ops_monitor.py:80-93 | a tick pages if and only if it can query the channels and its report gains a critical paging check over the last tick that did not raise, although severity is only computed when an alert is due |
| `OpsMonitor.PagingFromProbes` | backend/ops_monitor.py:317-359 | by what the probes find: a tick pages if and only if it can query the channels and sees an outage that the last tick which did not raise had not seen |
| `OpsMonitor.NewOutagePagesExactly` | backend/ops_monitor.py:317-337 | a database outage not seen before pages if and only if the evaluation completes and the channels can be queried |
| `AccountLockout.Accounts.Authenticate` | backend/auth.py:214-255 | a locked account answers Locked before its deadline, whatever the password, and stays as it is; otherwise a right password clears counter and deadline, and a wrong one counts and at the fifth sets a deadline in 15 minutes; no other account changes |
| `AccountLockout.Accounts.ConfirmPasswordReset` | backend/routers/auth_users.py:379-410 | a valid token clears counter and deadline of its active user; otherwise nothing changes |
| `AccountLockout.CounterBound` | backend/auth.py:229-254 | in every run of logins and resets the counter never exceeds 5 and is 5 exactly while a deadline is set |
| `AccountLockout.LockoutsPaceFailures` | backend/auth.py:229-249 | in every run, each full lockout and each clearing of the account lets at most five failures pass, and the counter holds the rest |
| `AccountLockout.LockoutBound` | backend/auth.py:210-255 | in every run, n failed password checks span at least floor((n-1)/5) times 15 minutes, less 15 minutes for each successful login or password reset |
| `AccountLockout.WrongPasswordsCount` | backend/auth.py:242-249 | five wrong passwords in a row set a deadline 15 minutes after the fifth, fewer set none |
| `AccountLockout.OnlyTheFifthFailureLocks` | backend/auth.py:242-249 | a step sets a deadline if and only if it is the fifth failure |
| `AccountLockout.LockStays` | backend/auth.py:229-237 | for 15 minutes after the fifth failure no login, whatever its password, changes the account |
| `AccountLockout.LockStopsExactly` | backend/auth.py:229-253 | the first login behind the fifth failure is turned away if and only if it comes within the 15 minutes; otherwise the password decides |
| `AccountLockout.NoLoginWhileLocked` | backend/auth.py:229-237 | in every run no login succeeds within 15 minutes of the fifth failure unless a reset came between |
| `BackupIds.SameBackupReflexiveSymmetric` | backend/backup_evidence.py:161-177 | same_backup is reflexive and symmetric on non-empty ids |
| `BackupIds.SameBackupChains` | backend/backup_evidence.py:161-177 | it is transitive unless the middle id is shorter than both others |
| `BackupIds.SameBackupDoesNotChain` | backend/backup_evidence.py:161-177 | in that case it need not be |
| `BackupIds.SameBackupSameName` | backend/backup_evidence.py:161-181 | ids of the same backup share their last path component |
| `BackupIds.LikeContainsExactly` | backend/backup_assurance.py:112-121 | LIKE with a plain part between two wildcards holds if and only if the part occurs |
| `BackupIds.LikeEndsExactly` | backend/backup_assurance.py:112-121 | with a leading wildcard only, if and only if the part stands at the end |
| `BackupIds.FilterLosslessExactly` | backend/backup_evidence.py:180-192 | the LIKE filter keeps every row that names the same backup if and only if the pattern matches the observed name itself |
| `BackupIds.FilterLosslessForPlainNames` | backend/backup_evidence.py:180-192 | it does so for every name without the escape character |
| `BackupIds.FilterLosesEscapedNames` | backend/backup_evidence.py:180-192 | a name with a backslash can miss its own row where LIKE has that escape character |
| `BackupIds.RaisingTextExactly` | backend/backup_evidence.py:180-192 | PostgreSQL raises while matching a pattern for some text if and only if the pattern ends in an escape character with nothing behind it |
| `BackupIds.MatchesEndComplete` | backend/backup_evidence.py:180-192 | such a pattern matches no text |
| `BackupEvidence.AcceptedIsValid` | backend/backup_evidence.py:97-158 | every accepted document says what it should: trimmed bounded texts, a safe path, a positive size, a gzip result exactly for databases, times in the window; its digest is 64 hexadecimal digits if and only if it does not end in a line feed |
| `BackupEvidence.ComponentsJoin` | backend/backup_evidence.py:121-123 | a path is its components joined by slashes, and no component contains one |
| `BackupEvidence.StripExactly` | backend/backup_evidence.py:91-94 | stripping removes white space at both ends and nothing else |
| `BackupEvidence.SchemaExactly` | backend/backup_evidence.py:16-19 | every document of the strict schema is accepted, and an accepted one is of the schema if and only if its digest has no final line feed and its version is the integer 1 |
| `BackupEvidence.AcceptsLineFeed` | backend/backup_evidence.py:57 | any document of the schema is still accepted with a line feed behind its digest |
| `BackupEvidence.AcceptsFloatVersion` | backend/backup_evidence.py:114-115 | and with the version 1.0 |
| `BackupEvidence.ParseRaisesExactly` | backend/backup_evidence.py:79-140 | the parser raises if and only if the decoder does, or a document passes all earlier checks and one of its times leaves the range of years when converted to UTC |
| `BackupEvidence.YearOneRaises` | backend/backup_evidence.py:82-88 | it does so for a document dated to the first midnight of year 1 on a clock ahead of UTC |
| `BackupEvidence.ParseUndoesWrite` | backend/backup_evidence.py:97-158 | every acceptable document, written out as JSON, is accepted and read back unchanged |
| `BackupEvidence.EventTable.RecordEvent` | backend/backup_assurance.py:244-307 | an event is appended exactly when it passes the checks, in their order, and the database can store its texts and size; otherwise nothing changes |
| `BackupEvidence.SecretKeyExactly` | backend/backup_assurance.py:231-241 | the recursive search finds a secret-like key if and only if some path through the value leads to one |
| `BackupEvidence.RecordableExactly` | backend/backup_evidence.py:244-267 | of an accepted document record_event finds fault exactly when its provider, its backup id or the environment cannot be stored, or its size exceeds 64 bits; no other check can fail |
| `BackupEvidence.RecordedRowExactly` | backend/backup_evidence.py:244-267 | recording a file appends one row, every column and the evidence given by the fields of its JSON |
| `BackupEvidence.ScopesExactly` | backend/backup_assurance.py:124-139 | a row without a scope is a volume's if and only if its provider contains volume or its backup id ends in .tar, and otherwise a database's |
| `BackupEvidence.EventTable.IngestBackupEvidence` | backend/backup_evidence.py:212-274 | the loop over the files ends with the table and the three counts of the pass function, or without counts when a document raises |
| `BackupEvidence.PassStopsExactly` | backend/backup_evidence.py:229-269 | a pass stops if and only if some file raises when its turn comes, and then exactly the files before it have been processed |
| `BackupEvidence.HarmlessExactly` | backend/backup_evidence.py:229-269 | a file raises on no table if and only if the parser does not raise, the row of its document can be stored and its name does not end in a free escape character |
| `BackupEvidence.PassesCompleteExactly` | backend/backup_evidence.py:212-219 | the documented promise: every pass over files taken from a list completes, whatever the table holds, if and only if each file of the list is harmless in this sense |
| `BackupEvidence.PassCompletesExactly` | backend/backup_evidence.py:212-274 | a given pass completes if and only if no file raises in the parser and, at the turn of each document, its query does not raise and its row can be stored or is already there |
| `BackupEvidence.BlockingExactly` | backend/backup_evidence.py:180-192 | a file raises on every table if and only if the parser does, or its name cannot be sent to the database, or its row can neither be stored nor ever be found |
| `BackupEvidence.RaisingFileBlocks` | backend/backup_evidence.py:229-243 | behind harmless files a file that raises on every table blocks the list for good: on every pass exactly the files before it are processed |
| `BackupEvidence.YearOneBlocks` | backend/backup_evidence.py:229-240 | for one, the document of year 1 as first file: no other file is ever looked at |
| `BackupEvidence.NulBlocks` | backend/backup_evidence.py:180-192 | for another, a document of the schema with a NUL in its backup id, where the database takes none |
| `BackupEvidence.OwnRowBlocksLater` | backend/backup_evidence.py:180-243 | a document whose own row makes the query raise is recorded by the first pass and stops every later one |
| `BackupEvidence.BackslashRaisesOnItself` | backend/backup_evidence.py:180-192 | such a document exists where LIKE escapes with a backslash: one of the schema whose backup id ends in it |
| `BackupEvidence.CountsAddUp` | backend/backup_evidence.py:227-274 | the three counts sum to the number of processed files, which is all of them if and only if the pass did not stop; the table only grows, by one row per recorded file |
| `BackupEvidence.CountsSayWhat` | backend/backup_evidence.py:227-269 | the rejected count is the number of processed files without an accepted document, the recorded count the number of new rows |
| `BackupEvidence.FilterAgreesExactly` | backend/backup_evidence.py:180-192 | filter and relation agree on every table if and only if the filter is lossless for the observed id |
| `BackupEvidence.FilterAgrees` | backend/backup_evidence.py:180-192 | where it is lossless, the filtered query answers as the relation over all rows of the environment and scope, legacy rows included |
| `BackupEvidence.PassCovers` | backend/backup_evidence.py:229-269 | after a pass every accepted document among the processed files is found in the table, when each pattern finds the row its document writes |
| `BackupEvidence.SecondPassRecordsNothing` | backend/backup_evidence.py:212-274 | under the same condition a second pass over the same files at the same time records nothing and gets exactly as far as the first |
| `BackupEvidence.SecondPassOnTableExactly` | backend/backup_evidence.py:212-274 | for a given list and table, a second pass adds nothing if and only if every document the first one recorded is found afterwards or stands behind a file that raises on the new table |
| `BackupEvidence.SecondPassExactly` | backend/backup_evidence.py:212-274 | no list made of given files, on no table, gains anything from a second pass if and only if each of them finds its own row, or raises on it, or cannot be stored |
| `BackupEvidence.NoBackupTwice` | backend/backup_evidence.py:180-192 | no pass adds a row for a backup that an earlier row of its environment and scope already names |
| `BackupEvidence.LatestCompletedBackup` | backend/backup_assurance.py:356-382 | the newest completed backup of a scope by completion time, then id, or none when there is none |
| `BackupEvidence.OnlyGoodDumpsCount` | backend/backup_assurance.py:361-382 | failed dumps and volume archives never change which backup is the newest completed one of the database |
| `BackupEvidence.RecordedCounts` | backend/backup_evidence.py:244-269 | every recorded document that did not fail its gzip test is counted: the newest completed backup of its scope is at least as recent |

## Left out

- PageRank.Pagerank: exact reals before `round(..., 6)`; floating-point rounding and NaN are not modelled, so neither is a sum that rounds to something other than 1.
- EntityLinker.BuildTfidf: exact reals instead of float32; the laws of the logarithm and the square root are assumed of the parameters.
- EntityLinker.FindCandidates: tokens are inputs, so lower-casing and splitting are not modelled; the rows come in the order the query returns them.
- EntityMerge.EntityTable.MergeEntities: the caller has rejected a primary id among the secondary ids, as the endpoint does; a read or write error of the database is not modelled.
- EntityMerge.MergeFields: a row is a value in the table's map, so two references to one row object are not modelled.
- ClaimProtocol.StatusTable.WritePending: no row is deleted between the bulk read and the bulk write; scopes and domain filters of the query are not modelled.
- ClaimProtocol.ClaimsAreExclusive: a restart ends all workers before the startup reset runs; a reset beside live workers of another process is not modelled, nor an enrichment started without a claim beyond the status it writes.
- ClaimProtocol.BatchesAddUp: an enrichment that raises is not counted by the worker, and its entity stays in processing until a restart; both are steps of the model.
- CoauthorLedger.Session.Write: author ids are inputs; name resolution and its own commits, and the `last_seen_at` and `enqueued_at` columns, are not modelled.
- MigrationSeeding.TryInsert: an insert succeeds if and only if its row can be built; unique or check constraints of a schema are not modelled, and a referenced value is never null.
- OpsMonitor.Monitor.RunOnce: one flag says whether the channels can be queried; serving a channel afterwards does not raise, since the stored event lists are JSON lists as the endpoints write them. Evidence ingestion and the heartbeat ping have no effect on the alerts, and no other statement of a tick raises.
- OpsMonitor.RunOperationalChecks: the results of the checks other than the two that page are inputs; their probes are not modelled.
- OpsMonitor.AggregateStatus: check statuses outside the four known ones.
- CommunitySettling.PropagationSettles: a missing or zero weight counts as 1; for graphs with negative weights no condition for settling is given.
- AccountLockout.Accounts.Authenticate: the password check is an input; two requests for one account do not overlap. The unlocking of the bootstrap account at startup does what a reset does.
- BackupEvidence.EventTable.IngestBackupEvidence: JSON decoding (which may raise), ISO parsing, case folding, white space, the characters a database stores and the rows a query plan matches before their other columns are looked at are parameters; a connection that fails is not modelled.
- CircuitBreaker.Breaker.Admit: the wall-clock `last_used_time`, which is only displayed, is not a field.
- MarkerText.RenderInert: how the metrics are derived is not modelled; counts are natural numbers and versions consist of digits and dots.
- ReadmeGuard.Run: reading and writing files, the artifact beside the README and the check mode.
- `degree_centrality`, `community_summaries`, `fetch_edges`, `revision_window`, `latest_failed_backup`: counts, orderings and queries that one reading settles.
- `recompute_coauthor_stats` beyond the mark it clears, merging of authors, `get_or_create_author` and the job runners are not part of this model.
- HTTP routes, tenancy scoping of queries, logging, and the choice of labels and messages.
