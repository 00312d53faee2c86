# Verified model of the data-observability core

This project models the following parts of a data-observability platform and proves what they promise.

* **Bounded search** (`Traversal`, `TraversalProofs`, `TraversalOrder`, `TraversalLimits`): the breadth-first blast-radius query with caps on
  hops, nodes, edges and paths. `Traverse` is the imperative search; `Traversed` is the function it
  refines, and the theorems are about walks in the whole graph.
* **Pathway assembly** (`Pathways`, `PathwayProofs`, `PathwayOrder`): the depth-first enumerator with a
  shared, capped result list, the shape of its pathways, and a description of the enumeration that does
  not mention the walk.
* **Migrations** (`Mappings`, `MappingUpdates`, `Migrations`, `ResourceNames`, `Diagnosis`, `Cluster`,
  `Resumption`, `ApplyProofs`, `Completion`, `Installation`, `Readiness`, `Releases`, `Histories`): the migration engine over a cluster of strict indices,
  templates, aliases and records. `ClusterClient.Cluster` is the mutable cluster; `Migrations` holds the
  state machine it refines. A run has a budget of cluster calls and may be cut off after any of them.
* **Robust statistics and the detector** (`Statistics`, `Detector`, `DetectorVerdicts`, `PartitionSkew`).
* **Objectives** (`Slo`, `SloProofs`, `SloLevels`): indicator, error budget and burn rate under three
  missing-evidence policies.
* **Pagination** (`Pagination`, `Collectors`): two collection loops against an arbitrary server.
* **Schemas** (`JsonText`, `Schema`, `SchemaProofs`, `SchemaDiff`, `SchemaPatch`): JSON values with the text
  that lists are ordered by, the recursive normal form, and the difference read as a patch.

`Ordering` holds total orders and the stable sort, `Optional` the option type. Floats are exact reals,
integers are unbounded, and strings are sequences of characters in code-point order. The concrete
migration tables, the clock, cancellation and the remote services are parameters. `dafny verify
dfyconfig.toml` covers the whole project.

Where the code does more or less than a reader might expect, the model follows the code:

* `Detector.RescalingInvariantIff`: with a zero deviation the score is an absolute difference, so the
  verdict can depend on the unit, as `Detector.ConstantSampleDependsOnUnit` shows; the lemma gives the
  exact condition, which does not ask for time-ordered points.
* `PartitionSkew.HalfIffThresholdAboveUnit`: the bound of one half is a matter of the threshold alone.
* `PathwayProofs.CoveredIffRooted`: the search starts at nodes that nothing points to whenever there is
  one, so a cycle that no root leads into is not covered (`PathwayProofs.DetachedCycleMissed`); on
  acyclic selections nothing is lost.
* `Collectors.CollectSome`: a limit below one still takes one item before it stops.
* `SchemaPatch.EveryColumnComparedIff`: different columns whose names coincide after normalisation hide
  one another (`SchemaPatch.DuplicateHidden`).
* `Readiness.CompletedIsReady`: a completed run does not recreate the resources of a terminal migration
  that was recorded before (`Readiness.LostIndexStays`).

## Model

| member | source | states |
|---|---|---|
| `Traversal.Traverse` | packages/pathways/traversal.py:17-119 | The queue-driven search returns exactly what the pure account of the search (`Traversed`) describes: paths in discovery order, reasons, exclusion counts; an unknown anchor gives an empty, untruncated answer |
| `Traversal.BuildAdjacent` | packages/pathways/traversal.py:26-31 | Filling the adjacency lists edge by edge gives each node its links in the chosen direction, in canonical edge order |
| `Traversal.Expand` | packages/pathways/traversal.py:62-90 | The inner loop performs one `Visit` per neighbour: edge cap first, then already visited, then node cap, then discovery |
| `Traversal.Advance` | packages/pathways/traversal.py:39-90 | One turn of the outer loop is one `Step`: report the head of the queue, then the path cap, then the hop limit, then expansion |
| `TraversalProofs.NeighboursExact` | packages/pathways/traversal.py:26-31 | The adjacency list of a node holds every link of the graph in the chosen direction and nothing else |
| `TraversalProofs.DiscoveryUnrefused` | packages/pathways/traversal.py:62-71 | A node is discovered only while no node and no edge has been refused |
| `TraversalProofs.StepKeeps` | packages/pathways/traversal.py:39-90 | Every turn keeps the search invariant: one shortest simple walk per visited node, layered queue, caps respected, links of expanded items found unless something was refused |
| `TraversalProofs.ReportedDistances` | packages/pathways/traversal.py:39-90 | Whatever cap has fired, each reported distance is the length of a shortest walk in the full graph; entities appear once, in non-decreasing distance, within the caps |
| `TraversalProofs.NothingNearerMissed` | packages/pathways/traversal.py:39-90 | Whatever cap has fired, every node strictly nearer than some reported entity is reported too: an answer is complete up to its last layer |
| `TraversalProofs.UntruncatedExact` | packages/pathways/traversal.py:53-72 | An untruncated answer lists exactly the nodes reachable from the anchor |
| `TraversalProofs.HopLimitExact` | packages/pathways/traversal.py:58-61 | An answer cut only by the hop limit lists exactly the nodes within that many hops |
| `TraversalProofs.TruncationWarranted` | packages/pathways/traversal.py:53-71 | A cap is named only when the graph really exceeds it (too many edges, too many reachable nodes, links at the hop limit, a full path list); an untruncated answer excludes nothing |
| `TraversalProofs.ReportedEvidence` | packages/pathways/traversal.py:73-90 | Every reported path is simple and carries the least confidence, the union of coverage and references, and the stale-over-partial-over-complete status of its own edges and non-anchor nodes |
| `TraversalProofs.EvidenceExtends` | packages/pathways/traversal.py:73-90 | Extending a path by one link extends its evidence by exactly that edge and node |
| `TraversalProofs.GraphLinks` | packages/pathways/traversal.py:22-31 | With distinct ids the links of the searched graph are exactly those of the edge list |
| `TraversalOrder.GraphEdges` | packages/pathways/traversal.py:22-25 | The edges of the searched graph are the last listings of their ids |
| `TraversalOrder.NodeEvidence` | packages/pathways/traversal.py:18-18 | A node counts with its last listing; one that only edges mention has no confidence, coverage or references and is partial |
| `TraversalOrder.ReportOrder` | packages/pathways/traversal.py:57-90 | Whatever cap has fired: each reported entity comes from the first reported one linked to it, through the edge of least id; children of earlier ones come first and those of one by name; and any followed link to a node that is not reported comes later in that order |
| `TraversalOrder.ReportedThroughLeastEdges` | packages/pathways/traversal.py:57-90 | The evidence of a reported path is that of the edges of least id between its nodes |
| `TraversalLimits.LimitsExact` | packages/pathways/traversal.py:53-109 | Exactly when the edge, hop and path caps are named, what a named node cap means, and the exact counts of excluded nodes and edges |
| `TraversalProofs.OrderIndependent` | packages/pathways/traversal.py:18-31 | With distinct ids the answer does not depend on the order of the node and edge lists |
| `Pathways.AssemblePathways` | packages/pathways/intelligence.py:95-178 | Out-of-range bounds are refused; otherwise the result is the head of the uncapped depth-first enumeration, its last element marked as truncated when the cap is reached |
| `Pathways.IndexEdges` | packages/pathways/intelligence.py:120-124 | The outgoing lists and the set of pointed-to nodes built in one loop |
| `Pathways.Assembler.Emit` | packages/pathways/intelligence.py:128-156 | Appends one pathway unless the path is empty or the cap is reached |
| `Pathways.Assembler.Walk` | packages/pathways/intelligence.py:158-170 | The recursion over the shared list appends everything below a node, cut at the cap |
| `Pathways.WalkRoots` | packages/pathways/intelligence.py:172-175 | Stopping at the cap loses nothing of the head of the enumeration |
| `PathwayProofs.ReturnedShape` | packages/pathways/intelligence.py:128-178 | Each returned pathway is a chain of selected edges from a root through distinct nodes, except that a cycle pathway ends on an earlier node; flags and least confidence are those of the chain |
| `PathwayProofs.CoveredIffRooted` | packages/pathways/intelligence.py:119-175 | If the cap is not reached and nothing is truncated, the covered edges are exactly those on some chain from a root |
| `PathwayProofs.AcyclicCovered` | packages/pathways/intelligence.py:119-175 | On an acyclic selection, such an answer covers every selected edge |
| `PathwayProofs.DetachedCycleMissed` | packages/pathways/intelligence.py:125-175 | With the default options, edges a to b, c to d and d to c give one untruncated pathway, and c to d is on none: acyclicity is needed |
| `PathwayOrder.SelectedExact` | packages/pathways/intelligence.py:107-118 | The selected edges are kept ones in id order; one is left out only when the edge cap is full of edges that come no later |
| `PathwayOrder.RootSetExact` | packages/pathways/intelligence.py:125-125 | Roots are the sources that no selected edge leads to; if there are none, all sources |
| `PathwayOrder.EnumerationExact` | packages/pathways/intelligence.py:158-175 | A chain is enumerated if and only if it starts at a root, visits distinct nodes, and closes a cycle, or meets the hop limit, or cannot be continued |
| `PathwayOrder.EnumerationOrdered` | packages/pathways/intelligence.py:125-173 | Over distinct edges the enumeration is ordered by root and then by edge ids, and lists no pathway twice |
| `Mappings.TypeMatchesReflexive` | packages/elastic_store/registry.py:391-406 | The recursive type match is reflexive |
| `Mappings.TypeMatchesTransitive` | packages/elastic_store/registry.py:391-406 | The recursive type match is transitive, at every depth of sub-fields and properties |
| `MappingUpdates.MatchesIffSameKinds` | packages/elastic_store/registry.py:391-406 | Two definitions match if and only if every path of sub-fields and properties of the expected one exists in the installed one with the same kind |
| `MappingUpdates.UpdateOutcome` | packages/elastic_store/registry.py:434-467 | An update of a registered, existing, strict index with a well-formed contract is rejected if and only if an asked field is installed with a missing path or another kind somewhere, the released exception apart; otherwise it adds exactly the missing fields, and every asked field has the asked kinds |
| `MappingUpdates.OwnersUnlessMalformed` | packages/elastic_store/registry.py:132-160 | An index can be created unless a released contract for it is malformed |
| `MappingUpdates.NewIndexDefinition` | packages/elastic_store/registry.py:173-202 | A new index is strict, and defines a field by the pinned table, else its owner, else the overriding table, else the shared one |
| `ResourceNames.ReplacedFirst` | packages/elastic_store/registry.py:361-361 | Replacement goes from left to right over the occurrences |
| `ResourceNames.PatternNames` | packages/elastic_store/registry.py:573-573 | The template names and stems made from patterns of the released shape |
| `ClusterClient.CollectOwners` | packages/elastic_store/registry.py:143-160 | The owner table filled release by release; a malformed released contract makes it fail |
| `ClusterClient.Cluster.EnsureIndex` | packages/elastic_store/registry.py:353-357 | Creates a missing index from its registered mapping and leaves an existing one alone |
| `ClusterClient.Cluster.ApplyMappingUpdate` | packages/elastic_store/registry.py:434-467 | Adds the missing fields of a registered, existing, strict index unless an installed one conflicts; each refusal is reported in the order of the code |
| `ClusterClient.Cluster.RunWork` | packages/elastic_store/registry.py:564-595 | The work of one migration, action by action, until done, failed or cut off |
| `ClusterClient.Cluster.Apply` | packages/elastic_store/registry.py:513-607 | The whole run over a mutable cluster, cut off after any number of calls, equals the state-machine account; on completion the selected ids are returned in order |
| `ClusterClient.Cluster.Status` | packages/elastic_store/registry.py:610-725 | One read-only diagnosis: missing and unknown ids, reused numbers, checksum and name mismatches, unmet dependencies of recorded migrations, duplicate ids and numbers, the readiness of each terminal resource, and `ready` |
| `ClusterClient.Cluster.Rollback` | packages/elastic_store/registry.py:728-735 | Removes exactly one record, and keeps everything else as it was |
| `Resumption.StepKeeps` | packages/elastic_store/registry.py:434-467 | A rejected step changes nothing, the verification after an update cannot fail, and an accepted step keeps every installed field, definition and strictness |
| `Resumption.ActionsReplay` | packages/elastic_store/registry.py:544-595 | Repeating a list of actions after any cut ends as the uncut list would have |
| `ApplyProofs.ApplyResumes` | packages/elastic_store/registry.py:513-607 | Interrupted after any number of cluster calls and run again, `apply` ends with the same outcome, records, indices, mappings, transforms and templates as one uninterrupted run |
| `ApplyProofs.ApplyResumesOften` | packages/elastic_store/registry.py:513-607 | The same after any number of interruptions in a row |
| `Diagnosis.NumberExact` | packages/elastic_store/registry.py:615-615 | The number of an id is its text before the first underscore |
| `Diagnosis.ReusedExact` | packages/elastic_store/registry.py:624-644 | A number counts as reused exactly by recorded ids outside the registry that share the text before the first underscore with a registry id |
| `Diagnosis.DuplicateNumbersExact` | packages/elastic_store/registry.py:615-616 | Duplicate numbers are exactly those that two places of the registry share |
| `Diagnosis.ViolatorsExact` | packages/elastic_store/registry.py:674-682 | The reported gaps are exactly the recorded migrations with their unrecorded dependencies |
| `Diagnosis.ConflictsExact` | packages/elastic_store/registry.py:624-672 | There is a conflict if and only if a recorded migration has another checksum or name, or a recorded stranger shares the number of a registry id |
| `Diagnosis.FailsClosed` | packages/elastic_store/registry.py:528-541 | Such a conflict stops the run before anything changes |
| `Diagnosis.SelectExact` | packages/elastic_store/registry.py:493-510 | A bound selects the migrations up to its first place, provided they hold their own dependencies |
| `ApplyProofs.ApplyKeepsDependencies` | packages/elastic_store/registry.py:544-549 | A dependency-closed record set stays dependency-closed, however the run ends |
| `ApplyProofs.ReadyIsStable` | packages/elastic_store/registry.py:610-725 | `ready` implies that a further full run completes and changes no resource and no record |
| `ApplyProofs.HistoryKeeps` | packages/elastic_store/registry.py:513-607 | Over any history of runs, interruptions and rollbacks with any registries, no installed field is removed or redefined and strictness is kept |
| `ApplyProofs.UpdateRejectedOrRepeatable` | packages/elastic_store/registry.py:434-467 | A rejected update leaves the cluster unchanged; an accepted one can be repeated after any later history without conflict and without effect |
| `Completion.CompletesIffFits` | packages/elastic_store/registry.py:434-467 | Pending work goes through if and only if each action fits the registry and the cluster as they are beforehand; then every index is an old one with the pending fields added or a new one as its catalogue entry defines it |
| `Installation.FullRunCompletesIff` | packages/elastic_store/registry.py:542-605 | From any conflict-free records a full run of a topologically ordered registry completes, recording every migration, if and only if the pending work fits |
| `Installation.CleanInstallSucceeds` | packages/elastic_store/registry.py:143-202 | A clean installation of a coherent registry meets no mapping conflict, even where the shared property union types a field differently |
| `Installation.CleanInstallIff` | packages/elastic_store/registry.py:143-202 | A clean installation goes through if and only if the registry is coherent |
| `Installation.OwnerIsEarliest` | packages/elastic_store/registry.py:143-160 | The owner definition of a field is that of the first migration that defines it |
| `Installation.MigrationsArePending` | packages/elastic_store/registry.py:542-605 | Running the migrations is running the concatenated work of those without a record, in order |
| `Readiness.WorkExact` | packages/elastic_store/registry.py:564-595 | The work of a migration consists of exactly the cluster writes that its operations ask for |
| `Readiness.CompletedInstalls` | packages/elastic_store/registry.py:564-605 | After a completed full run every migration that was pending has its indices with read and write aliases, its templates, its started transforms, its fields and its stream contracts (template, component, lifecycle) in place, and its record with its checksum and version |
| `Readiness.CompletedIsReady` | packages/elastic_store/registry.py:678-725 | After a completed full run the cluster is ready if and only if no stranger is recorded, no number is used twice and the resources of a terminal migration recorded before are present or forthcoming |
| `Readiness.LostIndexStays` | packages/elastic_store/registry.py:544-563 | A recorded migration whose only index is gone: a full run completes, changes nothing, and the cluster is not ready |
| `Histories.AnyHistoryRecovers` | packages/elastic_store/registry.py:513-607 | Under one coherent registry, after any history of applications, interruptions and rollbacks, one more full run completes, records everything, ends with the indices and records of a clean installation, and is ready unless a number is used twice |
| `Releases.Check` | scripts/check_migration_immutability.py:41-59 | The loop over the old plan reports the violations of the pure account, in order |
| `Releases.PassesIffKept` | scripts/check_migration_immutability.py:41-59 | With distinct ids, nothing is reported if and only if the new plan starts with the old one, entry by entry, checksums and last dependencies kept |
| `Releases.ReportsExact` | scripts/check_migration_immutability.py:41-59 | Which checksum, dependency and order violations are reported, for all plans |
| `Releases.CheckTransitive` | scripts/check_migration_immutability.py:41-59 | Two passing steps make a passing step |
| `Releases.ChainIsConflictFree` | scripts/check_migration_immutability.py:41-59 | A cluster that holds any records of an earlier release of a passing chain has no conflict with, and nothing unknown to, the latest release |
| `Releases.UpgradeRunsOnlyMissing` | packages/elastic_store/registry.py:528-563 | Upgrading such a cluster is never refused for its records, keeps them all and does the work of the missing migrations only |
| `Statistics.HalfAtMostMedian` | packages/streaming/intelligence.py:369-371 | At least half of the values are at most the median |
| `Statistics.MadZeroIffMajority` | packages/streaming/intelligence.py:369-371 | The deviation is zero if and only if at least floor(n/2)+1 values equal the median |
| `Statistics.QuantileMonotone` | packages/streaming/intelligence.py:350-355 | Interpolated quantiles grow with the requested share |
| `Statistics.QuantileCounts` | packages/streaming/intelligence.py:350-355 | How many values lie at or below a quantile, and below anything smaller |
| `Statistics.MedianIsQuantile` | packages/streaming/intelligence.py:350-371 | The separately computed median is the 50% quantile |
| `Statistics.RangeEnclosesMedian` | packages/streaming/intelligence.py:350-378 | The 10% quantile is at most the median and the median at most the 90% quantile |
| `Statistics.AffineBaseline` | packages/streaming/intelligence.py:369-371 | Median and deviation follow a positive affine rescaling |
| `Detector.BaselineSound` | packages/streaming/intelligence.py:358-378 | A baseline exists exactly when there is a usable point; its range encloses the median, its sample is bounded, its coverage is a positive share that is 1 exactly when enough samples are there |
| `DetectorVerdicts.BaselineExact` | packages/streaming/intelligence.py:358-392 | The baseline of an evaluation leaves out the last listed point and one bucket; its numbers are those of its sample |
| `DetectorVerdicts.SampleIsNewest` | packages/streaming/intelligence.py:359-364 | The sample is the newest part of the usable values in time order, as long as the limit allows |
| `DetectorVerdicts.CurrentIsLatest` | packages/streaming/intelligence.py:407-407 | The judged point is the last listed of the latest ones |
| `DetectorVerdicts.JudgedBySide` | packages/streaming/intelligence.py:422-430 | A value is abnormal, or severe, exactly when it lies beyond the thresholds on a watched side of the median |
| `DetectorVerdicts.MirroredDirections` | packages/streaming/intelligence.py:424-428 | Watching for drops is watching for rises in the mirror |
| `DetectorVerdicts.EvaluationExact` | packages/streaming/intelligence.py:422-476 | State and counter of an evaluation of a series, from its sample, its current value and the sides |
| `DetectorVerdicts.UnjudgedEvaluation` | packages/streaming/intelligence.py:384-421 | When an evaluation is disabled or has insufficient data, and that it then counts nothing |
| `Detector.FartherNeverMilder` | packages/streaming/intelligence.py:422-430 | A value farther out on the same side is never judged more mildly |
| `Detector.RunCounts` | packages/streaming/intelligence.py:431-476 | Over every run of an enabled detector fed its own outputs, the anomaly counter is the length of the trailing abnormal run; with the last judgement it decides exactly between watch, anomalous and severe; the two counters are never both positive |
| `Detector.RecoveryRun` | packages/streaming/intelligence.py:454-476 | After an anomaly, an unbroken within-range run gives recovering until the recovery count is reached and normal from then on |
| `Detector.RecoveringOrigin` | packages/streaming/intelligence.py:454-476 | Recovering is reported only after an anomaly followed by fewer within-range evaluations than the recovery count |
| `Detector.RescalingInvariantIff` | packages/streaming/intelligence.py:422-430 | The verdict is the same under every positive affine rescaling if and only if there is nothing to judge, or the deviation is not zero, or the value is the median or on the unwatched side, or neither threshold is above zero |
| `Detector.RescalingInvariantEvaluation` | packages/streaming/intelligence.py:422-476 | Under that condition the state and counters handed on do not change either |
| `Detector.ConstantSampleDependsOnUnit` | packages/streaming/intelligence.py:423-423 | A concrete series with a constant sample that is within range in one unit and severe in a unit ten times smaller |
| `PartitionSkew.AtMostHalfAffected` | packages/streaming/intelligence.py:496-528 | At the default threshold at most half of the measured partitions are affected, for every input and cap |
| `PartitionSkew.HalfIffThresholdAboveUnit` | packages/streaming/intelligence.py:499-508 | The bound holds for all measurements if and only if 1.4826 times the threshold exceeds 1 |
| `PartitionSkew.AffectedExact` | packages/streaming/intelligence.py:505-516 | The affected partitions are the outlying ones in ascending order, cut at the cap, and decide the reason |
| `PartitionSkew.SummaryExact` | packages/streaming/intelligence.py:502-528 | The extremes enclose all measurements and the median, and the reported deviation is the largest score |
| `PartitionSkew.SharesExact` | packages/streaming/intelligence.py:517-528 | The ratio is the maximum in units of the median, and the coverage the share of measured partitions |
| `Slo.Tally` | packages/domain_model/slo.py:242-250 | One pass fills the four counters and the two sets |
| `Slo.EvaluateIntervals` | packages/domain_model/slo.py:228-323 | An empty or future window is refused; otherwise the evaluation of the evidence, with missing windows standing for all of it |
| `SloLevels.CountsReported` | packages/domain_model/slo.py:251-257 | The reported counts and the confidence, from the counts of the intervals |
| `SloLevels.SharesReported` | packages/domain_model/slo.py:255-257 | The indicator is the share of good among eligible, the coverage that of known among all |
| `SloLevels.BudgetExact` | packages/domain_model/slo.py:174-191 | What an error budget allows, has consumed and has left |
| `SloLevels.BurnClassExact` | packages/domain_model/slo.py:204-225 | Each burn class, from the counts of the two windows: sustained burning takes both of them |
| `SloLevels.HealthWithBudget` | packages/domain_model/slo.py:270-279 | Half, nine tenths and all of the allowed bad intervals are the limits of the health states |
| `SloLevels.HealthExact` | packages/domain_model/slo.py:265-271 | When health is unknown or partial, and what it is without a budget |
| `SloProofs.EligibleIsGoodPlusBad` | packages/domain_model/slo.py:251-257 | Under every missing-evidence policy eligible equals good plus reported bad, every interval is accounted for once, and ratios stay in [0, 1] |
| `SloProofs.SliMeetsObjectiveIffWithinBudget` | packages/domain_model/slo.py:170-191 | The indicator meets the objective if and only if the bad intervals fit the allowed budget, that is, if the remaining budget is not negative |
| `SloProofs.BurnIsConsumedShare` | packages/domain_model/slo.py:194-201 | Over its own intervals and with a non-zero budget, the burn rate is the consumed share of the budget |
| `SloProofs.WorseningNeverImproves` | packages/domain_model/slo.py:204-279 | Turning good intervals bad never improves the state or the burn class |
| `SloProofs.MissedObjectiveExhausts` | packages/domain_model/slo.py:266-279 | A missed objective on full evidence is reported as exhausted |
| `Collectors.CollectAll` | integrations/databricks/pagination.py:17-48 | Against any server: at most the allowed fetches, no token sent twice, and either the whole chain in key order with nothing distinct dropped, or an error that the conversation justifies |
| `Collectors.WholeChainSucceeds` | integrations/databricks/pagination.py:26-48 | If the server has a whole chain within the limits, no error is justified |
| `Collectors.CollectSome` | integrations/bigquery/pagination.py:17-43 | Against any server: at most the allowed fetches, no token sent twice, and the first distinct keys in arrival order (one at least), or all of them, or an explained error |
| `Collectors.EnoughSucceeds` | integrations/bigquery/pagination.py:25-43 | If enough items, or all of them, can be had within the limits, no error is explained |
| `Pagination.SheetExact` | integrations/databricks/pagination.py:35-41 | The returned items are in key order and hold, for every key that arrived, the item that arrived first |
| `Pagination.FirstSeenExact` | integrations/databricks/pagination.py:35-36 | De-duplication keeps exactly the first item of every key |
| `Pagination.FirstSeenGrows` | integrations/bigquery/pagination.py:32-35 | Later arrivals never disturb what was seen first |
| `JsonText.DumpInjective` | packages/agent_sdk/models.py:237-237 | The sort key determines the value: different JSON values have different sorted-key texts (escapes, surrogate pairs, numbers, nested lists and objects) |
| `JsonText.EscapeTexts` | packages/agent_sdk/models.py:237-237 | The escapes of quotes, backslashes and control characters |
| `JsonText.ObjectText` | packages/agent_sdk/models.py:237-237 | Entries are ordered by name and set apart by commas |
| `SchemaProofs.FoldExact` | packages/agent_sdk/models.py:238-239 | Folding takes away white space at both ends of the lower-case text, all of it and nothing else |
| `SchemaProofs.FoldIdempotent` | packages/agent_sdk/models.py:238-239 | Lower-casing and stripping twice is doing it once |
| `SchemaProofs.NormDecidesSame` | packages/agent_sdk/models.py:232-242 | Two values have one normal form if and only if they agree up to list order at every depth, case and blanks |
| `SchemaProofs.NormIdempotent` | packages/agent_sdk/models.py:232-242 | Canonicalising twice is canonicalising once |
| `SchemaProofs.NormLists` | packages/agent_sdk/models.py:236-237 | The order of a list does not show in its normal form |
| `SchemaDiff.DiffSchemas` | packages/agent_sdk/models.py:251-268 | The difference as the loops build it: added, removed and changed columns, each group in order of name; malformed columns are refused |
| `SchemaPatch.ColumnsReadable` | packages/agent_sdk/models.py:252-253 | Columns can be read unless they are neither a list of named columns nor empty |
| `SchemaPatch.DiffIsPatch` | packages/agent_sdk/models.py:254-268 | Applying the changes to the tracked attributes of the old columns gives those of the new ones |
| `SchemaPatch.DiffEmptyIff` | packages/agent_sdk/models.py:254-268 | The difference is empty if and only if the tracked attributes agree |
| `SchemaPatch.DiffSwapped` | packages/agent_sdk/models.py:254-268 | Swapping the schemas swaps additions with removals and turns every change around |
| `SchemaPatch.SameSchemasDoNotDiffer` | packages/agent_sdk/models.py:251-268 | Reordering lists, changing case or adding blanks is no difference |
| `SchemaPatch.KeptIffLast` | packages/agent_sdk/models.py:252-253 | A column of a list is kept under its name if and only if the last one of that name equals it |
| `SchemaPatch.ComparedIffGreatest` | packages/agent_sdk/models.py:232-253 | A column of a schema is the one compared if and only if no column of the same canonical name has a greater canonical text |
| `SchemaPatch.EveryColumnComparedIff` | packages/agent_sdk/models.py:232-253 | Every column of a schema is compared if and only if columns with one canonical name have one canonical form |
| `SchemaPatch.DuplicateHidden` | packages/agent_sdk/models.py:252-253 | A concrete schema with columns "id" and "ID" of which one is not compared |

## Left out

- Rounding of reported confidences to three decimals, and floating-point error in general: arithmetic is exact.
- Non-finite measurements are treated as missing; the branches that guard against a non-finite burn rate are not part of the model.
- Display fields of a traversal answer (candidates, node types, names) and of a pathway (hashed ids, node payloads, evidence and coverage lists): copied data. The node limit of the pathway assembly affects only those payloads.
- `confidence_for`, `bottlenecks`, `compare_windows`, `ewma`, `retention_forecast` and failure classification: short arithmetic that would only add easy members.
- Stable sorting of nodes by id before they enter a dictionary is modelled as a dictionary in which a later node of the same id wins, which is the same.
- Application times of migration records, the limit of 1000 search hits in `status`, the texts of error messages and the classification of transform start errors.
- Mappings are stored verbatim: normalisation that a search engine applies to a mapping is not part of the model.
- Bodies of data-stream templates beyond their pattern, component and policy names, and of lifecycle policies beyond the retention.
- The two tables that override released field owners for incident and data-product indices are one table, `pinned`; the tables that come before the owners are `shared` and `overrides`.
- Registries are assumed to have distinct ids where a theorem says `UniqueIds`, and dependencies that point backwards where it says `Topological`; `status` reports duplicate ids, `apply` itself does not refuse them.
- Template contents after a rollback and a further run: `ApplyProofs.HistoryKeeps` is about indices, mappings, transforms and strictness, because an old migration that runs again may overwrite a later template of the same name.
- Hashed identities, limits on the number of evidence references, forecast fields and burn reason texts of an objective evaluation.
- Case folding and stripping beyond ASCII; floats are their shortest texts, non-finite ones and lone surrogates do not occur, and Python's `1 == True`, `1 == 1.0` and `0.0 == -0.0` are not identified; a column whose name is not a string is malformed.
- `Collectors.CollectSome`: tokens are strings or absent, as its page type says.
- The concrete migration tables, provider clients, contract declarations, telemetry, seeding and documentation scripts.
