# Beekeeper in Dafny

Models of Beekeeper's algorithmic cores, and proofs of what they promise. Each module follows one
core; loops, in-place updates and mutable fields of the Go code stay methods, arrays and classes,
proved against specification functions whose laws are lemmas. Whatever the program does not control
(map iteration order, other writers of a Kubernetes object, watch events, the answers of nodes,
random draws) is an arbitrary parameter, so the results hold for every run.

| file | core |
|---|---|
| `ConfigInheritance.dfy`, `BeeExport.dfy` | inheritance between configuration profiles, and their export |
| `StatefulSetNuke.dfy` | update and rollback of a StatefulSet among concurrent writers |
| `PodLifecycle.dfy` | the watch that follows a pod from deletion to completion |
| `PostageChunks.dfy` | size of a chunk tree and the batch depth estimated from it |
| `Stamper.dfy` | top-up and dilution of postage batches |
| `BlockTime.dfy` | the block-time estimator, its halving search and its cache |
| `ClosestNode.dfy` | closest node by XOR distance, and the replica search of the light-node check |
| `ClosestFullNode.dfy` | the search for a connected full node |
| `Neighborhoods.dfy` | the list of all neighbourhoods of a depth |
| `UniqueRandom.dfy` | the random generator without repetition, and neighbourhood arguments |
| `BalanceSymmetry.dfy` | symmetry of balances and conservation |
| `Common.dfy` | options, powers of two, products, cardinalities, 64-bit words |

Durations are nanoseconds as in Go; 64-bit wrap-around is written out with `Int64.Wrap` where the
program computes with durations, amounts, spans and balances. Floating point is exact: the quotients
of the chunk count are rationals, as are block times and usages.

## What the proofs show about the code

- A container added by another writer between the snapshot and the take-down loses its readiness
  probe for good, in a cycle that reports success, because the rollback restores probes only of
  containers the snapshot knows (`AddedSidecarLosesProbe`). It is lost exactly when no one writes
  from the commit of the take-down up to the put of the first rollback attempt (`UnknownProbeLost`).
- The comment on `Set` says the top-up is based on the original depth. The code bases it on the time
  left after dilution but pays it in before diluting, so a diluted batch can fall short and is topped
  up again by the next `Set` (`DilutedToppedUpTwice`; exactly when: `DilutedIsIdle`). If n dilutions
  are enough for the usage of a batch whose quantities fit their words, n + 1 rounds bring it to rest
  (`SetsSettle`); two rounds do unless one dilution leaves it due for the next (`TwoSetsSettle`,
  `DilutedAgain`).
- A policy whose threshold is within one block of the target can make every further `Set` send a
  top-up of amount zero (exactly when: `SecondSetIsIdle`).
- A batch with more than some 292 years left overflows the nanosecond counter and may be topped up
  as if it had expired (`HugeTTLOverflows`). Exactly when the decision is right is
  `TopUpDecidedRightly`, and without dilution `UndilutedDecidedRightly`.
- `ErrUniqueNumberExhausted` can be returned although no number of the range was handed out, once
  numbers of other ranges are used (`ExhaustionSpurious`; exactly when it is true:
  `ExhaustionTruthful`). So a node can be left without a neighbourhood although all of its radius are
  free (`SmallerRadiusLeftOut`), but not after nodes of smaller or equal radius
  (`ExhaustedWhenRadiiGrow`).
- `%b` drops leading zeros, so the argument of a node can name a larger neighbourhood than one of its
  radius (exactly when not: `BinaryWidth`), and two nodes can be sent to neighbourhoods one inside the
  other although their arguments differ (`DistinctButNested`; exactly when: `NeighbourhoodInside`).
- A peer outside the cluster that comes first in a bin hides a full node in the same bin, and the
  whole search can fail for it (`SearchMissesFullNode`; the exact outcome is the contract of
  `ClosestFullNodeClient`).
- Two balances that are both the smallest 64-bit number pass the symmetry test
  (`MinimumAccepted`; exactly when: `AcceptedPairs`).

## Model

| member | source | states |
|---|---|---|
| ConfigInheritance.MergeConfigs | pkg/config/config.go:61-119 | for every iteration order: succeeds iff every profile has a complete ancestry; the result is the nearest-ancestor map; an error names a parent that is missing, or one already on an ancestry; no profile is merged twice |
| ConfigInheritance.Merger.MergeParent | pkg/config/config.go:67-110 | one recursive merge: keeps the memo settled and distinct from the stack, leaves the stack as it was on success, explains its error from the name the recursion started with; terminates |
| ConfigInheritance.Merger.FillFromParent | pkg/config/config.go:97-105 | a field is the child's if set, else the parent's, for every field including the embedded parent link |
| ConfigInheritance.NearestAncestorWins | pkg/config/config.go:100-104 | the value found along a path is that of the first name that sets the field, or none if no name does |
| ConfigInheritance.CompleteUnique | pkg/config/config.go:91-92 | a profile has at most one complete ancestry |
| ConfigInheritance.CompleteHasNoRepeats | pkg/config/config.go:73-77 | a complete ancestry never visits a name twice |
| ConfigInheritance.BrokenNeverCompletes | pkg/config/config.go:73-82 | a chain that hits a missing name or one of its own names cannot be completed, so the reported error is real |
| ConfigInheritance.MergeOrderIrrelevant | pkg/config/config.go:112-118 | at most one map meets the inheritance rule, so the iteration order does not show |
| ConfigInheritance.FilledFromMergedParent | pkg/config/config.go:91-105 | a profile whose inherit field names a parent has that parent in the map and holds its own fields, else those of the merged parent |
| ConfigInheritance.ParentlessUnchanged | pkg/config/bee.go:69-74 | a profile whose inherit field is nil or empty is left as it is |
| ConfigInheritance.MergeIdempotent | pkg/config/config.go:97-107 | merging an already merged map changes nothing |
| BeeExport.Export | pkg/config/bee.go:77-102 | every set field goes to the target field of its name and type, all others keep their zero value, and an empty RPC endpoint becomes the swap endpoint |
| BeeExport.ExportedField | pkg/config/bee.go:82-94 | a target field holds the value of the profile if that is set and of its type, and only then differs from its zero value |
| BeeExport.ExportedEndpoint | pkg/config/bee.go:98-100 | the endpoint is the profile's own nonempty one, else its swap endpoint if it has one |
| BeeExport.MergeThenExport | pkg/config/bee.go:77-102 | exporting after merging equals resolving each field along the ancestry and exporting that |
| StatefulSetNuke.BeeContainerIndex | pkg/nuker/nuker.go:353-360 | index of the first container named bee, or -1 if there is none |
| StatefulSetNuke.RestoreReadinessProbes | pkg/nuker/nuker.go:365-377 | in place: each container gets the probe the original has under its name, others are not touched |
| StatefulSetNuke.EditCopy | pkg/nuker/nuker.go:224-278 | the in-place edits of both closures give the specified object, or nothing without a bee container |
| StatefulSetNuke.RetryOnConflict | pkg/nuker/nuker.go:258-281 | get, edit, put with up to five attempts: only conflicts are retried; log and reply are those of the specification |
| StatefulSetNuke.UpdateAndRollback | pkg/nuker/nuker.go:199-298 | the whole cycle, pods included: no rollback without a bee container in the snapshot, otherwise a rollback whatever happened before, and after an accepted one the pods are recreated |
| StatefulSetNuke.NukeCommandFlags | pkg/nuker/nuker.go:200-204 | each forget flag of the nuke command has the value asked for |
| StatefulSetNuke.RecreateAndComplete | pkg/nuker/nuker.go:305-346 | succeeds iff every pod was deleted and its watch saw it deleted, recreated, running and completed |
| StatefulSetNuke.RecreateAndRun | pkg/nuker/nuker.go:246-250 | succeeds iff every pod was deleted and polled as running before anything bad |
| StatefulSetNuke.TakeDownResult | pkg/nuker/nuker.go:270-278 | the take-down sets the OnDelete strategy, the nuke command and no probes, and nothing else |
| StatefulSetNuke.RestoreResult | pkg/nuker/nuker.go:229-238 | the rollback gives strategy and replicas of the snapshot, the saved probe to each of its containers wherever it stands, and leaves unknown containers alone |
| StatefulSetNuke.TakeDownThenRestore | pkg/nuker/nuker.go:229-238 | without other writers the cycle gives back the snapshot up to the bee command and image |
| StatefulSetNuke.EditKeepsUntouched | pkg/nuker/nuker.go:229-238 | an edit changes nothing but strategy, probes and the bee command; a rollback also the replicas, and the bee image only if one is configured |
| StatefulSetNuke.CycleDisciplined | pkg/nuker/nuker.go:215-281 | under any interleaving each commit of the nuker edits the commit directly before it |
| StatefulSetNuke.NoForeignChangeLost | pkg/nuker/nuker.go:215-281 | under any interleaving and any failures the object ends with all the last other writer gave it but strategy, probes and bee command; replicas too unless the newest commit is the rollback, and the image unless it is and an image is configured |
| StatefulSetNuke.ForeignImageKept | pkg/nuker/nuker.go:236-238 | without a configured image the images are those the last other writer gave |
| StatefulSetNuke.CommitsOfCycle | pkg/nuker/nuker.go:215-297 | at most one take-down and then at most one rollback are committed; success means the former is there, an accepted rollback is the newest commit |
| StatefulSetNuke.RolledBack | pkg/nuker/nuker.go:215-241 | after an accepted rollback strategy, replicas and the probes of all snapshot containers are the saved ones, whoever else wrote |
| StatefulSetNuke.UnknownProbeKept | pkg/nuker/nuker.go:276-278 | the probe of a container the snapshot does not know survives iff another writer committed after the take-down or it had none |
| StatefulSetNuke.UnknownProbeLost | pkg/nuker/nuker.go:215-281 | told from the run: it is lost iff there was one and no one wrote between the take-down and the put of the first rollback attempt |
| StatefulSetNuke.AcceptedFollows | pkg/nuker/nuker.go:217-241 | an accepted update directly follows the log it started with iff no one wrote during its first attempt, else a commit of another writer |
| StatefulSetNuke.AddedSidecarLosesProbe | pkg/nuker/nuker.go:276-278 | a concrete cycle that succeeds and is rolled back, and loses the probe of a sidecar |
| StatefulSetNuke.RetryAcceptedWhenQuiet | pkg/nuker/nuker.go:217-241 | without failing calls an update is accepted iff some attempt sees no other writer between its get and its put |
| StatefulSetNuke.OutcomeOfCycle | pkg/nuker/nuker.go:199-298 | whatever calls fail: success iff the take-down goes through and every pod was deleted, recreated, run and completed; the rollback is made whatever happened before and accepted iff it goes through; restarted iff then all pods come up; nothing happens without a bee container in the snapshot |
| StatefulSetNuke.RetryOutcome | pkg/nuker/nuker.go:217-241 | whatever calls fail: the first attempt without a conflict settles an update, which is accepted iff that attempt goes through and in the log iff it commits |
| StatefulSetNuke.CommittedInCycle | pkg/nuker/nuker.go:214-281 | take-down and rollback are in the log iff their settling attempts commit, also when a lost reply hides it |
| StatefulSetNuke.CommandsOfCycle | pkg/nuker/nuker.go:229-278 | success means the nuke command was rolled out with OnDelete and no probes; an accepted rollback leaves restart command and configured image |
| StatefulSetNuke.WritesRecorded | pkg/nuker/nuker.go:258-292 | what others commit while the pods run the nuke follows the take-down in the log |
| PodLifecycle.ProcessEventInState | pkg/k8s/pod/client.go:256-304 | the transition of one event, status loops included |
| PodLifecycle.WaitForPodRecreationAndCompletion | pkg/k8s/pod/client.go:212-253 | over every event sequence: success iff Deleted, Added, running and Completed occur in this order with no failure after the first such running event; failure iff that start is followed by a failure first; at the deadline the state tells how far the events got |
| PodLifecycle.StepReached | pkg/k8s/pod/client.go:268-303 | one event takes what the events so far mean to what they mean with it |
| PodLifecycle.NeverBoth | pkg/k8s/pod/client.go:291-299 | no event sequence means both success and failure |
| PodLifecycle.AtMostOneStep | pkg/k8s/pod/client.go:268-303 | the state never goes back and moves at most one step; only the last wait can fail |
| PodLifecycle.SidecarsIgnored | pkg/k8s/pod/client.go:281-291 | statuses of other containers change neither state nor failure |
| PodLifecycle.FollowedContainer | pkg/k8s/pod/client.go:263-266 | a requested container is followed whatever the pod lists first; without a request the first one is |
| PodLifecycle.MeaningByName | pkg/k8s/pod/client.go:279-299 | for a requested container the events mean what the statuses with its name say |
| PodLifecycle.EndingMeansFirstDecisive | pkg/k8s/pod/client.go:289-300 | an event ends the watch by the first status of the container that says Completed or Error, and not without one |
| PodLifecycle.WaitForRunning | pkg/k8s/pod/client.go:308-330 | succeeds iff Running is polled before a failed get, Failed or Unknown; it does not tell whether the pod was recreated |
| PostageChunks.CalculateNumberOfChunks | pkg/bee/postage.go:17-36 | the loop over unrounded quotients counts exactly the chunks of the tree that rounds every level up |
| PostageChunks.TreeByLevels | pkg/bee/postage.go:26-35 | the tree has, on every level up to the one a single chunk covers, the data chunks divided by that power of the branching factor and rounded up |
| PostageChunks.FullTree | pkg/bee/postage.go:26-35 | the closed form of the size of a full tree |
| PostageChunks.ContentByDataChunks | pkg/bee/postage.go:18-26 | up to 4096 bytes are one chunk, more are the tree over their 4096-byte chunks |
| PostageChunks.CeilDivTwice | pkg/bee/postage.go:30-33 | rounding up once after two divisions is rounding up after each |
| PostageChunks.ChunksMonotone | pkg/bee/postage.go:17-36 | a longer content never has fewer chunks |
| PostageChunks.EstimatePostageBatchDepth | pkg/bee/postage.go:11-13 | the estimate d is at least 2, 2^(d+1) exceeds the chunk count, and 2^d does not unless d is the minimum |
| PostageChunks.RequestedDepth | pkg/check/fileretrieval/fileretrieval.go:100 | the depth the checks ask for holds more than twice the chunks, and at most four times as many above the minimum |
| Stamper.Set | pkg/stamper/node.go:69-116 | the requests sent are the per-batch plans in list order, cut right after the first failing one; it succeeds iff none fails, and then the two flags tell whether a top-up and a dilution were sent |
| Stamper.PlanOfOne | pkg/stamper/node.go:82-113 | the plan for a list of one batch is the plan of that batch |
| Stamper.PlanOfJoined | pkg/stamper/node.go:82-113 | the plan for two lists joined is their plans joined |
| Stamper.ServedBatches | pkg/stamper/node.go:203-217 | only usable, used, live batches that pass the id and label filters get requests, under their own id; such a batch is diluted iff its usage reaches the threshold |
| Stamper.UsageMeaning | pkg/bee/api/postage.go:129-132 | the usage is the filling of the fullest bucket in percent |
| Stamper.SetBatch | pkg/stamper/node.go:83-113 | the loop body sends the plan of its batch up to the first failure, and nothing for a batch that is not valid |
| Stamper.HandleTopup | pkg/stamper/node.go:151-170 | at most one top-up, exactly when the time left is within the threshold and below the target |
| Stamper.ToppedUpTTL | pkg/stamper/node.go:151-165 | a topped-up undiluted batch ends above the target minus one block and not above the target, iff the amount fits its word |
| Stamper.DilutedState | pkg/stamper/node.go:92-112 | the exact depth and time left of a diluted batch: the bought blocks are divided too |
| Stamper.DilutionDividesUsage | pkg/bee/api/postage.go:129-132 | dilution by k divides the usage by 2^k |
| Stamper.DilutedAgain | pkg/stamper/node.go:90-92 | a diluted batch is due again iff its old usage was at least 2^k times the threshold |
| Stamper.NotDilutedAgain | pkg/stamper/node.go:90-92 | a batch with usage at most 100 is not diluted again when the threshold exceeds 100/2^k |
| Stamper.SecondSetIsIdle | pkg/stamper/node.go:88-112 | a second Set changes nothing on a batch not due for dilution; it sends a request, a top-up by zero, iff the first top-up ended below threshold and target |
| Stamper.SetsSettle | pkg/stamper/node.go:69-116 | if n dilutions are enough for the usage, a batch is at rest after n + 1 rounds of Set: nothing changes any more, and nothing is sent if the target is at least a block above the threshold |
| Stamper.TwoSetsSettle | pkg/stamper/node.go:69-116 | two rounds are enough unless the batch, once diluted, is due for dilution again |
| Stamper.SettledListSendsNothing | pkg/stamper/node.go:69-116 | the Set after n + 1 rounds over a list of batches buys and dilutes nothing |
| Stamper.DilutionLowersLimit | pkg/stamper/node.go:90-92 | one dilution takes the usage limit for n + 1 dilutions to that for n |
| Stamper.DilutedIsIdle | pkg/stamper/node.go:92-112 | a diluted batch is left alone by the next Set iff its divided time has run out, or it is not due for dilution again and that time clears the threshold or the target |
| Stamper.DilutedToppedUpTwice | pkg/stamper/node.go:66-112 | a concrete batch that is topped up by two consecutive Sets |
| Stamper.HugeTTLOverflows | pkg/stamper/node.go:88 | a concrete long-lived batch that is topped up because its duration overflows |
| Stamper.TopUpDecidedRightly | pkg/stamper/node.go:88-112 | a top-up is sent iff one is due, exactly when the computed time left is not too short for a due top-up and not taken for due otherwise; always when the duration fits the counter and the target is not negative |
| Stamper.UndilutedDecidedRightly | pkg/stamper/node.go:88-112 | without dilution: exactly when neither the duration nor its difference from the target overflows, or its low 64 bits are not taken for due |
| Stamper.OverflowShortens | pkg/stamper/node.go:88 | the time the decision is based on is the true one up to 292 years and shorter beyond |
| BlockTime.GethClient.FetchBlockTime | pkg/swap/block.go:47-100 | reply, requests and cache of one call are those of the specification: cached value, errors, halving, rounding |
| BlockTime.FindEarlier | pkg/swap/block.go:77-90 | the halving loop asks the blocks and settles on the offset the specification says; it terminates |
| BlockTime.SearchRequests | pkg/swap/block.go:77-90 | at most floor(log2 offset)+1 requests, for strictly later blocks each time, none before the first |
| BlockTime.SearchFollowsAnswers | pkg/swap/block.go:77-90 | the search goes on exactly while blocks have no timestamp, halving the offset, and ends with the answer to its last request |
| BlockTime.SearchSettles | pkg/swap/block.go:77-90 | if exactly the blocks from some height on are there: the asked offset if available, otherwise one at least half of the largest available; an error iff none is |
| BlockTime.RequestsOfCall | pkg/swap/block.go:59-90 | a call never asks for a block below half the chain and makes at most two requests besides the search |
| BlockTime.AnswersDecide | pkg/swap/block.go:59-75 | a call without a cached value asks for the latest block and then for the one offset earlier, or the middle of a shorter chain; the first failing answer is its error and leaves the cache |
| BlockTime.ComputedReply | pkg/swap/block.go:77-100 | on a truthful chain the value is the estimate between the latest block and the last one asked for |
| BlockTime.RoundNearest | pkg/swap/block.go:93 | rounding goes to the nearest integer, halves away from zero |
| BlockTime.EstimateNearest | pkg/swap/block.go:92-93 | the estimate is the average block time to the nearest second |
| BlockTime.EstimateWithinGaps | pkg/swap/block.go:92-93 | if every gap between timestamps lies in [lo, hi], so does the rounded estimate |
| BlockTime.EveryReplyWithinGaps | pkg/swap/block.go:92-99 | over any history of calls on such a chain every value handed out lies in [lo, hi], so it can be divided by when lo is 1 |
| BlockTime.CacheHoldsLastComputed | pkg/swap/cache.go:16-26 | over any history the cache holds the last value computed from requests |
| BlockTime.CachedCallRepeats | pkg/swap/block.go:54-57 | in any history a call without refresh repeats a positive last value with no request, and otherwise makes requests |
| ClosestNode.CmpComparesDistances | pkg/bee/chunk.go:96-106 | the bytewise comparison orders addresses by their XOR distance as numbers; equal distance means equal address |
| ClosestNode.DistanceLaws | pkg/bee/chunk.go:96-106 | the distance is symmetric, zero iff the addresses are equal, and invariant under exclusive or with a third address |
| ClosestNode.ClosestOf | pkg/bee/chunk.go:89-109 | a node of the list at minimal distance; an error iff an address of another length is compared |
| ClosestNode.ClosestNodeFromMap | pkg/bee/chunk.go:112-152 | in any map order: a node at minimal distance among those not skipped, not found iff all are skipped |
| ClosestNode.FindReplica | pkg/check/pushsync/check_lightnode.go:107-128 | the nodes are asked in strictly increasing distance, none twice, and a missing replica is reported only when every other address was asked |
| ClosestNode.SweepEnds | pkg/check/pushsync/check_lightnode.go:109-113 | as many rounds as overlays suffice |
| ClosestNode.CheckReplicated | pkg/check/pushsync/check_lightnode.go:85-128 | with distinct addresses: not synced iff all three tries at the closest node fail, otherwise replicated iff some other node has the chunk |
| ClosestFullNode.ClosestPeer | pkg/bee/client.go:376-408 | the first peer with the smallest proximity value that is not skipped, or the zero address |
| ClosestFullNode.ClosestFullNodeClient | pkg/orchestration/k8s/cluster.go:444-475 | terminates for any answers within nodes plus bins calls and returns only full non-boot cluster nodes; on a fixed topology it fails iff no bin offers one and otherwise returns that of the first bin that does |
| ClosestFullNode.PickDecides | pkg/orchestration/k8s/cluster.go:461-472 | skipping useless cluster nodes does not change which other peer of the bin comes first |
| ClosestFullNode.OffersWhenFullConnected | pkg/orchestration/k8s/cluster.go:456-474 | if all connected peers of a bin are cluster nodes it offers one iff a full non-boot node is connected |
| ClosestFullNode.FailsOnlyWithoutFullNode | pkg/orchestration/k8s/cluster.go:456-474 | if all connected peers are cluster nodes the search fails iff no bin below 32 has a full non-boot node |
| ClosestFullNode.StrangerHidesFullNode | pkg/orchestration/k8s/cluster.go:461-464 | a concrete bin whose full node is missed |
| ClosestFullNode.SearchMissesFullNode | pkg/orchestration/k8s/cluster.go:444-475 | a concrete topology with a connected full node whose whole search ends without one |
| Neighborhoods.Neighborhoods | pkg/check/networkavailability/check.go:159-189 | for 0 to 32 bits: 2^bits addresses, every prefix of that length belongs to exactly one of them, all later bits are zero |
| Neighborhoods.AddressOf | pkg/check/networkavailability/check.go:166-185 | the byte shuffling of one number gives its encoding |
| Neighborhoods.BytesToAddr | pkg/check/networkavailability/check.go:191-195 | the bytes, padded with zeros to 32 |
| Neighborhoods.BytesAreEncoding | pkg/check/networkavailability/check.go:167-183 | little-endian bytes with the last one shifted are the encoding, eight bits at a time |
| Neighborhoods.BitsOfAddress | pkg/check/networkavailability/check.go:166-195 | the bits of an address are those of its prefix and then zeros |
| Neighborhoods.PrefixRoundTrip | pkg/check/networkavailability/check.go:160-185 | every prefix is that of a number in range |
| Neighborhoods.IndexRoundTrip | pkg/check/networkavailability/check.go:160-185 | a number can be read back from its prefix |
| UniqueRandom.Generator.GetRandom | pkg/random/random.go:33-63 | a unique generator answers as specified and remembers exactly what it hands out; any other only stays in the range |
| UniqueRandom.Generator.Reset | pkg/random/random.go:67-71 | nothing counts as used |
| UniqueRandom.UnusedExists | pkg/random/random.go:52-62 | whenever the search loop is entered the range holds an unused number |
| UniqueRandom.AnswerLaws | pkg/random/random.go:33-63 | a value is in the range and new; the range is invalid iff it has 2^63 numbers |
| UniqueRandom.FreshInRange | pkg/random/random.go:56-62 | the search ends iff some draw is unused |
| UniqueRandom.FirstUnusedDraw | pkg/random/random.go:56-62 | the first unused draw is the one taken |
| UniqueRandom.AnyUnusedPossible | pkg/random/random.go:52-62 | every unused number of the range can be the next |
| UniqueRandom.RangeMeaning | pkg/random/random.go:34-41 | the range reaches from the smaller to the larger absolute value, both included |
| UniqueRandom.ValuesDistinct | pkg/random/random.go:52-62 | over any calls between resets, ranges mixed, no number is handed out twice |
| UniqueRandom.ExactlySpanSuccesses | pkg/random/random.go:52-54 | on one range exactly the first span calls succeed, they give every number once, and all later ones report exhaustion |
| UniqueRandom.ExhaustionTruthful | pkg/random/random.go:52-54 | a used-up range is always reported; the report is true iff at most used minus span of the used numbers lie outside the range |
| UniqueRandom.ExhaustedWhenRangesGrow | pkg/random/random.go:52-54 | if all earlier ranges lie inside the asked one, exhaustion is reported iff every number of it was handed out |
| UniqueRandom.ExhaustionSpurious | pkg/random/random.go:52-54 | a concrete false report |
| UniqueRandom.GetArgs | pkg/nuker/neighborhood.go:39-73 | the argument list, the errors, an unused number below 2^radius when one is drawn, and what a list without one means |
| UniqueRandom.ExhaustedWhenRadiiGrow | pkg/nuker/neighborhood.go:54-66 | after nodes of at most its radius, those of radius zero drawing nothing, a node gets no neighbourhood iff all of its radius were given away |
| UniqueRandom.SmallerRadiusLeftOut | pkg/nuker/neighborhood.go:57-66 | a concrete node that gets none although all are free |
| UniqueRandom.ArgumentsDistinct | pkg/nuker/neighborhood.go:59-70 | no two numbers handed out give the same argument |
| UniqueRandom.BinaryWidth | pkg/nuker/neighborhood.go:70 | the printed number is as wide as the radius iff it is below 2^radius and, unless the radius is one, its first bit is set |
| UniqueRandom.NeighbourhoodInside | pkg/nuker/neighborhood.go:70 | one printed number is a prefix of another iff they are equal, or it is positive and the other with its last digits dropped |
| UniqueRandom.DistinctButNested | pkg/nuker/neighborhood.go:59-70 | a concrete pair of nodes sent to neighbourhoods one inside the other |
| BalanceSymmetry.ValidateBalances | pkg/check/balances/balances.go:177-197 | in any map order: valid iff every pair cancels out in 64-bit arithmetic, absent entries being zero |
| BalanceSymmetry.AcceptedPairs | pkg/check/balances/balances.go:182-183 | acceptance means each pair is opposite or both are the smallest number |
| BalanceSymmetry.AcceptedEntries | pkg/check/balances/balances.go:177-197 | told from the maps: each entry is the opposite of the one across, or zero if there is none, or both are the smallest number |
| BalanceSymmetry.AcceptedIsAntisymmetric | pkg/check/balances/balances.go:177-197 | antisymmetry is acceptance without a smallest number |
| BalanceSymmetry.MinimumAccepted | pkg/check/balances/balances.go:182-183 | a concrete asymmetric pair that is accepted |
| BalanceSymmetry.BalancesConserved | pkg/check/balances/balances.go:177-197 | the balances of an antisymmetric cluster add up to zero |
| BalanceSymmetry.CheckThresholds | pkg/check/settlements/settlements.go:251-262 | true iff every balance is within its received and given thresholds |
| BalanceSymmetry.ThresholdsMeaning | pkg/check/settlements/settlements.go:251-262 | the balance lies between the two thresholds, a smallest received threshold bounding nothing |
| BalanceSymmetry.BalancesAreAccounts | pkg/check/settlements/settlements.go:263-301 | the balances compared are those of the accounts |
| BalanceSymmetry.ValidateSettlements | pkg/check/settlements/settlements.go:250-301 | valid iff all thresholds hold and all pairs cancel out; then, without a smallest number, the balances add up to zero |

## Left out

- HTTP, JSON-RPC and Kubernetes calls, logging and metrics: their answers are parameters of the models.
- FetchBlockTime: requires a latest block of at least 2, since below that the program divides by an offset of zero.
- Set: requires shift amounts below the word size (bucket depth <= depth <= bucket depth + 62, extraDepth <= 62) and a positive block time.
- DilutedState: requires quantities that fit their words, because outside them the plan is not what it should be (`TopUpDecidedRightly`, `ToppedUpTTL`).
- SecondSetIsIdle: the same.
- DilutedIsIdle: the same, and a diluted depth within the word size.
- SetsSettle: requires quantities that fit their words and shift amounts below the word size for the dilutions still to come.
- TwoSetsSettle: the same for one dilution.
- SettledListSendsNothing: the same for every batch of the list.
- HandleTopup: the seconds of a duration are an exact quotient, which the program computes in float64.
- CalculateNumberOfChunks: quotients are exact rationals, which float64 matches for content lengths up to 2^53.
- EstimatePostageBatchDepth: the logarithm is an exact floor; a rounded-up float64 logarithm can only enlarge the depth.
- GetRandom: does not say that the search loop ends, which is a matter of probability; it follows the loop over an arbitrary finite list of draws and proves that an unused number exists. The smallest 64-bit argument is excluded.
- GetArgs: requires a storage radius of at most 62; that the provider is switched on by the nuker's constructor is not part of this model.
- ClosestFullNodeClient: requires that no overlay of the cluster is empty, since the program would otherwise retry a bin forever; that ClosestPeer should prefer near peers is not claimed, as it keeps the smallest proximity value.
- FindReplica: requires addresses of equal, positive length; other lengths are covered by the error of ClosestNodeFromMap.
- Neighborhoods: requires at most 32 bits; beyond that no byte of the number is kept, so the program fails on an empty byte list where it shifts the last byte and gives only zero addresses for 40, 48 and 56 bits.
- EditCopy: fields of containers and objects the nuker never names are one opaque value each.
- UpdateAndRollback: watchers and the deleter of recreatePodsAndWait run concurrently and do not depend on each other's results, so their order is not modelled; a watch that cannot be opened or is cancelled is one with fewer events, and replicas are those the caller checked.
- WaitForPodRecreationAndCompletion: the deadline is the end of the event sequence; a closed channel is a run of events that are not pods.
- ValidateSettlements: asymmetric settlements are only logged by the program and do not decide.
- Export of node groups and clusters: the same loop as for Bee profiles, without the endpoint rule.
- The join of several files in `Read`: first file wins, only easy members.
- FlattenAccounting and the other flatten functions: a disjoint union of maps, only easy members.
- Topup, Dilute and Create of the stamper, and GetOrCreateMutableBatch: single formulas or a return at the first match.
