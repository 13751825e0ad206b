# Retail segmentation: a verified model

This project models the parts of the retail-segmentation system that carry algorithms and
protocols, and proves what they promise. Each service operation that changes state is a method
over fields or arrays here, proved equal to a function of the old state; the promises
are then lemmas about those functions, over all inputs, all reachable states or all runs.

**K-means and its labels** (`KMeans`, `KMeansDescent`, `Silhouette`, `SilhouetteLaw`, `KMeansFit`,
`LloydRuns`, `Normalisation`, `ClusterLabels`, `ClusterOrder`, with `Reals`, `Sorting` and `Counting` underneath). Floats are exact
reals, the two random streams are arbitrary functions into [0, 1), and distance is any
non-negative function. An iteration never raises the cost even when the refill moves
customers, and its centres are the best there are; a fit is exactly the run of such rounds its
fields report; a customer's label depends on the set of rows and the parameters alone, and a
better cluster never gets a worse one.

**Segment history** (`HistoryRows`, `SegmentHistory`, `RunClock`, `CustomerTimeline`,
`HistoryReaders`). Any interleaving of any number of runs (begin, lock, clock, create, close,
insert, commit or roll back), under a wall clock that may be set to anything, leaves every
customer's history a chain, and the two readers of that chain agree.

**Campaigns and experiments** (`Experiments`, `ExperimentVerdicts`, `ExperimentRuns`,
`ExperimentArms`, `ExperimentCounts`, `ExperimentMeasure`, `UpliftRules`, `ExperimentDesk`). Over every run of the machine the first assignment
freezes what a measurement means, arms stay even and non-empty, and counts that pass the
uplift gate are exactly the buyers in the window.
A transition's reads and its compare-and-set may be separated by other steps.

**Login throttle** (`LoginThrottle`). Sliding windows in a bounded recency order refine a
plain log of failures. A call reads the clock before it takes the lock, so instants may step
back; the claims hold up to the largest step back from a reading inside the window, and
exactly when there was none.

**Sales ingestion** (`Ingestion`, `IngestionVerdicts`, `IngestionLaws`, `Transactions`). A row
is taken exactly on stated conditions, and refused for the first fault; it is whole or absent; stock and sales are conserved; a row taken once is never taken again; and a file sent
again in full changes nothing.

**Smaller pieces** (`LikeSearch`, `Ranks`, `RandIndex`, `EtaSquared`, `ConsumptionShift`,
`ShiftRules`, `UndecidedShifts`, `UndecidedReports`, `ModelComparison`, `ModelComparisonLaws`,
`Closure`, `Categories`, `CategoryVerdicts`): search escaping, average ranks, the adjusted Rand
index, eta squared, consumption shifts, run comparison and the category hierarchy.

Where a promise fails, the model keeps the code, shows an input and says exactly when the
promise holds:

- an exposure recorded with an overridden `today`, for one customer or a group, lies in the
  experiment's dates exactly when the day it is stamped with does, and over a whole run all
  exposures lie in theirs exactly when each was stamped inside them:
  `ExperimentMeasure.ExposureFrameCondition`, `ExperimentMeasure.GroupExposureFrameCondition`
  and `ExperimentMeasure.RunFrameExactly`; one that does not: `ExperimentMeasure.OverrideLeavesFrame`;
- the diagonal of a run comparison counts the agreements for every pair of runs exactly when
  the vocabulary holds neither an empty label nor the text "Unassigned":
  `ModelComparisonLaws.DiagonalNeedsASeparateVocabulary`, whose proof builds the runs that
  disagree otherwise;
- a refused call whose refusal the caller handles leaves its connection as it found it exactly
  when it owned the connection and nothing uncommitted was waiting on it, or joined and its
  code writes nothing there before it refuses: `Transactions.HandledRefusalIsUndoneExactly`; a
  joined call whose writes survive its refusal: `Transactions.HandledRefusalCanBeCommitted`;
- the instant read under the lock is meant to keep run times in commit order and rows from
  ending before they start. With a clock that steps back, run times are in commit order
  exactly when every run commits with a reading not before the last committed one, and no
  run is refused exactly when every close finds its customers' open rows starting by its
  reading: `RunClock.ClockDecidesExactly`, both settled as the clock is read
  (`RunClock.ReadingIsKept`). A clock that never steps back meets both
  (`RunClock.ForwardClockSuffices`); one that does breaks either (`RunClock.StepBackBreaksBoth`);
- the streak query is described as returning a previous row with a different label; it does
  exactly when no gap interrupts the newest run of the current label:
  `CustomerTimeline.PreviousDiffersExactly`. A history with a gap where it does not:
  `CustomerTimeline.GapRepeatsLabel`. Chains, the only histories that runs write, have no gap:
  `CustomerTimeline.PreviousLabelDiffers`;
- who is *undecided* in a shift report can depend on spend, unlike who shifted: a dimension is
  undecided or not whatever is spent exactly when each period has at most one item that can
  lead it or no item can lead both (`UndecidedShifts.MoneyIsSilentExactly`); a report's
  undecided count exactly when every compared customer has a claimed shift, is undecided on
  such a dimension, or has such dimensions only (`UndecidedReports.ReportIsSilentExactly`); and
  one customer's purchases give a report with one undecided or with none
  (`UndecidedShifts.UndecidedDependsOnSpend`).

`dafny verify dfyconfig.toml` verifies the whole project. Ids and names are opaque ordered
codes, tables are sequences or maps, a database constraint is a guard with a refusal, and a
row lock or an advisory lock makes the steps under it one step.

## Model

| member | source | states |
|---|---|---|
| Normalisation.ScaledToUnit | web/services/kmeans.py:151-163 | scaled values lie in [0, 1]; exactly the lowest map to one end and the highest to the other; a constant feature is 0 both ways |
| Normalisation.ScalingKeepsOrder | web/services/kmeans.py:151-163 | scaling keeps the strict order of values, or turns it round when reversed |
| Normalisation.ScalingIsProportional | web/services/kmeans.py:151-163 | differences of scaled values are the differences of values over the span |
| Normalisation.ScalingForgetsUnits | web/services/kmeans.py:151-163 | unit and origin cancel out, and a change of sign is a reversal |
| Normalisation.RecencyForgetsTheClock | web/services/kmeans.py:166-180 | recency is the same from whatever moment days are counted, so no clock need be recorded |
| Normalisation.PointsAreScaled | web/services/kmeans.py:166-180 | each coordinate is the plain scaling of what was measured, in [0, 1] |
| KMeans.Nearest | web/services/kmeans.py:190-198 | no centroid is nearer, and every earlier one is strictly farther |
| KMeans.NextPickLaw | web/services/kmeans.py:218-232 | the next centre is drawn in proportion to squared distance while any is left, else it is the first unused customer |
| KMeans.DrawIsUnique | web/services/kmeans.py:220-229 | the weighted draw is fixed by its target |
| KMeans.PicksFollowTheLaw | web/services/kmeans.py:201-237 | the start is fixed by its law: a uniform first customer, then after every prefix the lawful pick under the next unused draw, a draw being used only while some weight is left |
| KMeans.StartIsDistinctCustomers | web/services/kmeans.py:201-237 | k-means++ starts from k different customers |
| KMeans.RepeatMeansExhausted | web/services/kmeans.py:201-237 | a centre repeats a point only once every customer already coincides with a centre |
| KMeans.SomeoneCanMove | web/services/kmeans.py:240-270 | pigeonhole: with an empty cluster and n >= k some cluster has two members |
| KMeans.DonorIsFarthest | web/services/kmeans.py:240-270 | the refill moves the customer farthest from its own centroid among clusters that can spare one |
| KMeans.RefillEffect | web/services/kmeans.py:240-270 | no cluster is empty afterwards; whoever moved is alone in a cluster that was empty; nothing moves when none was |
| KMeansFit.FindNearest | web/services/kmeans.py:190-198 | the scan returns the nearest centroid, lowest index on a tie |
| KMeansFit.RefillInPlace | web/services/kmeans.py:240-270 | the in-place refill computes the refilled assignment, counts the moves and leaves no cluster empty |
| KMeansFit.ComputeMeans | web/services/kmeans.py:273-283 | the accumulating loops compute the means |
| KMeansFit.PickStart | web/services/kmeans.py:201-237 | the loop over running minima computes the k-means++ start |
| KMeansFit.RunIteration | web/services/kmeans.py:374-384 | one iteration computes the next centroids, which no others beat for the refilled nearest assignment, and counts refilled clusters |
| KMeansFit.RunLoop | web/services/kmeans.py:369-384 | the loop stops where the recursive account of it does, with the same tallies |
| KMeansFit.FitMethod | web/services/kmeans.py:341-412 | the whole fit, refusals included, is the function of its rows |
| KMeansFit.FitIsSound | web/services/kmeans.py:341-412 | a fit happens exactly for matching lengths, distinct ids and n >= k; then ids ascend, every cluster is non-empty and the silhouette is in [-1, 1] for k >= 2 |
| KMeansFit.StoredPartitionIsNearest | web/services/kmeans.py:112-122 | nobody is stored away from their nearest final centroid except whoever moved alone into an empty cluster |
| KMeansFit.IterateDescends | web/services/kmeans.py:374-384 | any number of iterations never raises the cost |
| KMeansFit.FitDescends | web/services/kmeans.py:341-412 | the final centroids cost no more than the start; inertia is at least that cost, exactly it when the last refill moved nobody |
| KMeansFit.FitForgetsRowOrder | web/services/kmeans.py:363-365 | reordering the input rows leaves the result unchanged, refusals included |
| LloydRuns.FitReportsRun | web/services/kmeans.py:341-412 | a fit is a run of rounds from its start: nearest partition, refilled, then the best centres; each round but the last moved a centre further than the tolerance; converged, shift, iterations, moves, inertia, sizes and assignments are that run's |
| LloydRuns.RefillMoves | web/services/kmeans.py:240-270 | the refill is a chain of moves of the farthest spare customer into the first empty cluster, until none is empty |
| KMeansDescent.NearestIsCheapest | web/services/kmeans.py:190-198 | no assignment costs less than the nearest one |
| KMeansDescent.MeanBeatsAnyCentre | web/services/kmeans.py:273-283 | the mean of a cluster costs no more than any other centre |
| KMeansDescent.MeansMinimise | web/services/kmeans.py:273-283 | for a fixed assignment the means minimise the cost |
| KMeansDescent.OnlyMeansAreBest | web/services/kmeans.py:273-283 | the means are the only centres no others beat |
| KMeansDescent.NextCentroidsAreBest | web/services/kmeans.py:374-380 | the next centroids cost no more than any others for the refilled nearest assignment |
| KMeansDescent.RefillCostsNothing | web/services/kmeans.py:240-283 | centres that follow the refilled customers keep the cost from rising |
| KMeansDescent.IterationNeverIncreasesCost | web/services/kmeans.py:374-384 | nearest assignment, refill and means together never raise the sum of squared distances to the nearest centroid |
| Silhouette.SampleIsAscending | web/services/kmeans.py:286-296 | the sample is distinct customers in ascending order, as many as asked for |
| Silhouette.DealSample | web/services/kmeans.py:286-296 | the partial shuffle by swaps deals that sample |
| Silhouette.Measure | web/services/kmeans.py:299-335 | the silhouette exists exactly for k >= 2, lies in [-1, 1], and is sampled exactly above the limit |
| Silhouette.MeanSilhouette | web/services/kmeans.py:299-335 | the loops compute that measure |
| SilhouetteLaw.ScoreLaw | web/services/kmeans.py:317-335 | a score times the larger of the mean distance inside and the least mean distance to another cluster is their difference; it is positive exactly when the customer is nearer its own, and 1 exactly when it coincides with its own and no other |
| SilhouetteLaw.MeasureIsMeanScore | web/services/kmeans.py:299-335 | the silhouette is the mean of the scores of everybody, or of the sample |
| SilhouetteLaw.PerfectExactly | web/services/kmeans.py:299-335 | it is 1 exactly when everybody surveyed coincides with a cluster of two or more and with no other |
| SilhouetteLaw.EveryDealHappens | web/services/kmeans.py:286-296 | every choice of customers in every order is dealt by some draws |
| SilhouetteLaw.DealFixesPicks | web/services/kmeans.py:286-296 | and by one sequence of picks only |
| ClusterLabels.RankIsPermutation | web/services/cluster_labels.py:63-66 | ranking lists every cluster once |
| ClusterOrder.RankIsBestFirst | web/services/cluster_labels.py:52-66 | of two ranks the earlier has the centroid with the larger sum, then R, then F, then M, then the smaller least customer |
| ClusterOrder.BetterClusterBetterLabel | web/services/cluster_labels.py:99-138 | a customer of a better cluster never gets a later label, and a strictly earlier one when there are labels enough |
| ClusterOrder.LabelledExactly | web/services/cluster_labels.py:69-79 | customers are labelled exactly for two clusters or more and a non-empty vocabulary |
| ClusterLabels.LabelIndexIsNearest | web/services/cluster_labels.py:82-90 | the position is the nearest one to proportional, halves going to the worse label |
| ClusterLabels.NearestIsUnique | web/services/cluster_labels.py:82-90 | only one position is nearest in that sense |
| ClusterLabels.EndpointsAreAnchored | web/services/cluster_labels.py:82-90 | first rank to first label, last to last |
| ClusterLabels.LabelIndexIsMonotone | web/services/cluster_labels.py:82-90 | positions never go back as ranks advance, and advance strictly with labels to spare |
| ClusterLabels.InjectiveIffEnoughLabels | web/services/cluster_labels.py:82-96 | no two clusters share a label exactly when k <= V |
| ClusterLabels.OntoIffEnoughClusters | web/services/cluster_labels.py:82-96 | every label is used exactly when k >= V |
| ClusterLabels.MappingReconciles | web/services/cluster_labels.py:109-127 | shared labels are empty iff k <= V and unused ones iff k >= V, for any distinct vocabulary |
| ClusterLabels.ClustersAreLabelledByRank | web/services/cluster_labels.py:99-106 | the cluster of each rank carries the label at that rank's position in the vocabulary |
| ClusterLabels.LabelPairs | web/services/cluster_labels.py:130-138 | every customer gets their cluster's label |
| ClusterLabels.RankFollowsRenaming | web/services/cluster_labels.py:52-66 | renaming clusters renames their ranking, because the smallest-member tie-break is strict |
| ClusterLabels.LabelsForgetNames | web/services/cluster_labels.py:99-138 | renaming clusters leaves every customer's label unchanged |
| ClusterLabels.LabelsDependOnRowsAlone | web/services/cluster_labels.py:52-138 | reordering the rows and renaming the clusters together leave every customer's label unchanged |
| LoginThrottle.WaitBounds | web/services/login_throttle.py:68-81 | a blocked bucket waits at least 1 second and at most the window and the largest step back from inside it, any other not at all |
| LoginThrottle.WaitExactly | web/services/login_throttle.py:74-79 | the wait is the whole seconds until the first live failure leaves the window, at least one |
| LoginThrottle.StepBackLengthensWait | web/services/login_throttle.py:70-80 | a wait can exceed the window when a clock read earlier is used later |
| LoginThrottle.PlainDecisionBlocks | web/services/login_throttle.py:68-81 | the plain log blocks exactly when some key has max_attempts failures in the window |
| LoginThrottle.OldestIsLeastRecent | web/services/login_throttle.py:99-112 | every other bucket was touched after the oldest one |
| LoginThrottle.EvictionKeepsConsistent | web/services/login_throttle.py:110-112 | eviction keeps what memory says true of the log |
| LoginThrottle.TrimmedFacts | web/services/login_throttle.py:110-112 | trimming keeps the newest buckets, at most the limit, and loses a key only after that many other keys were touched |
| LoginThrottle.PruneKeepsConsistent | web/services/login_throttle.py:99-108 | pruning keeps no more failures than were live a step back earlier, no fewer than will be live a step back later for a key not evicted since, and exactly the live ones without a step back |
| LoginThrottle.Throttle.Prune | web/services/login_throttle.py:99-108 | the loop drops what left the window from the front and moves the key to the newest place, with the same bounds against the log |
| LoginThrottle.Throttle.Trim | web/services/login_throttle.py:110-112 | the map never exceeds max_keys afterwards |
| LoginThrottle.Throttle.Check | web/services/login_throttle.py:68-81 | blocks only on failures and always on those of a key not evicted since, up to the largest step back from inside the window; without one, decides as the plain log whenever no key was evicted within the window; retry_after is in [1, window + step back] |
| LoginThrottle.StepBackIsLargest | web/services/login_throttle.py:70-71 | what is allowed for is the largest drop from a reading inside the window to a later one, and such a drop occurs when it is not zero |
| LoginThrottle.Throttle.RecordFailure | web/services/login_throttle.py:83-91 | logs a failure for each key; a key is lost only after max_keys others were touched |
| LoginThrottle.RecordedExactly | web/services/login_throttle.py:83-91 | the log of a key gains as many failures of now as the key is listed |
| LoginThrottle.Throttle.Clear | web/services/login_throttle.py:93-97 | forgets the keys' failures and buckets; the others keep their buckets and their order |
| HistoryRows.OpenIsNewest | web/db/segments.py:306-350 | in a chain at most one row is open, the newest |
| SegmentHistory.Store.CreateRun | web/db/segments.py:243-285 | adds one run row with the next id |
| SegmentHistory.Store.CloseOpenAssignments | web/db/segments.py:306-322 | closes the listed customers' open rows at the instant, or nothing when a constraint refuses |
| SegmentHistory.Store.InsertAssignments | web/db/segments.py:325-350 | appends one open row per assignment, or refuses |
| SegmentHistory.Store.Record | web/services/segmentation.py:436-484 | create, close and insert happen whole or not at all, keep the history settled, and are refused exactly when a listed customer's open row starts later |
| SegmentHistory.ConstraintsFireExactly | web/db/segments.py:306-350 | on a settled history a constraint refuses a run's rows exactly when a listed customer's open row starts after the instant |
| SegmentHistory.InsertAllowedExactly | sql/01_schema.sql:322-367 | an open row is allowed exactly when no stored period shares an instant with it and its run has none there |
| SegmentHistory.RecordedIsSettled | web/db/segments.py:306-350 | closing and opening at one instant that no open row starts after extends every chain |
| SegmentHistory.StepKeepsInv | web/db/segments.py:223-240 | every step of every run keeps the protocol's invariant, whatever the clock does |
| SegmentHistory.HistoriesStayChains | web/db/segments.py:13-34 | over every interleaving of runs and any clock, committed histories are chains with the open row newest, and run ids follow commit order |
| SegmentHistory.StepCommitsWholeRuns | web/db/segments.py:13-34 | tables change only by a commit, which closes and opens exactly its customers' rows at one instant |
| SegmentHistory.RollbackUndoesAll | web/services/segmentation.py:436-484 | a run that is not over can be rolled back: nothing it wrote stays and its lock is free |
| RunClock.ClockDecidesExactly | web/db/segments.py:223-240 | run times follow commit order exactly when every commit comes with a reading not before the last committed one; no run is refused exactly when every close finds its customers' open rows starting by its reading |
| RunClock.ReadingIsKept | web/db/segments.py:223-240 | from the reading until a run is over its instant and the tables stay as they were |
| RunClock.ForwardClockSuffices | web/db/segments.py:223-240 | under a clock that never steps back run times follow commit order and no constraint refuses a run |
| RunClock.AloneRunIsRecorded | web/services/segmentation.py:436-484 | a run nobody interrupts is recorded whole at its reading, or refused exactly when a listed customer's open row starts later |
| RunClock.StepBackBreaksBoth | web/db/segments.py:223-240 | after a step back a second run is committed with an earlier time, or refused for a customer of the first |
| CustomerTimeline.ReadsSeeNewestFirst | web/db/consumption.py:320-380 | both reads see a history newest first, in whatever order it is stored |
| CustomerTimeline.BuildEntries | web/services/customer_timeline.py:176-198 | each entry carries the start of its maximal contiguous same-label stretch, whether the label changed, and the previous run |
| CustomerTimeline.AsOfIsUnique | web/services/customer_timeline.py:206-217 | at most one entry is open at a boundary, and it is the one found |
| CustomerTimeline.AsOfCoversChain | web/services/customer_timeline.py:206-217 | in a chain every boundary after the first start and before the last end finds an entry |
| CustomerTimeline.QueryFindsStretch | web/db/consumption.py:306-406 | the gaps-and-islands query returns the open row since its stretch began, and the newest row before that stretch |
| CustomerTimeline.QueryAgreesWithTimeline | web/services/customer_timeline.py:172-217 | the query's open row, "since" and previous row are the timeline's |
| CustomerTimeline.PreviousDiffersExactly | web/db/consumption.py:306-406 | the previous row carries a different label exactly when no gap interrupts the newest run of the current label |
| CustomerTimeline.GapRepeatsLabel | web/db/consumption.py:306-406 | over a gap it can carry the same label |
| CustomerTimeline.PreviousLabelDiffers | web/db/consumption.py:306-406 | in a chain it always carries a different label |
| HistoryReaders.ReadersAgreeAfterAnyRuns | web/db/consumption.py:306-406 | after any interleaving of runs, on every stored history, both readers name the same open row and "since", the previous row is the newest entry before that stretch, exactly when there is one, and its label differs |
| ExperimentRuns.SplitIsEven | web/services/experiments.py:432-449 | the arms partition the population and differ in size by at most one, none empty when there is a customer per group |
| ExperimentRuns.AssignPartitions | web/services/experiments.py:452-541 | an assignment writes each customer of the population once, into arms of even size, at one instant |
| ExperimentVerdicts.AssignDecides | web/services/experiments.py:451-541 | an assignment is refused for the first of its faults and else adds assignments alone |
| ExperimentVerdicts.AssignDealsShuffle | web/services/experiments.py:432-541 | the rows are exactly the cards dealt: the shuffle's p-th customer in ascending order goes to arm p modulo the number of arms |
| ExperimentVerdicts.CreateCampaignDecides | web/db/campaigns.py:107-146 | a campaign is refused as a resubmitted draft or for its dates, and else appended as a draft |
| ExperimentVerdicts.EditCampaignDecides | web/services/campaigns.py:152-171 | an edit is refused for a missing campaign, one no longer a draft, or its dates, and else rewrites the draft |
| ExperimentVerdicts.TransitionDecides | web/services/campaigns.py:197-230 | a transition is refused for a missing campaign, a move not allowed, an end in the past or arms that cannot be compared, and else changes the status alone |
| ExperimentVerdicts.StatusMovesFromWhatWasRead | web/db/campaigns.py:175-189 | the update is a compare-and-set: a campaign that moved on since is left alone |
| ExperimentVerdicts.CreateExperimentDecides | web/services/experiments.py:269-308 | an experiment is refused for a campaign that is over, its arms, a resubmitted form or its fields, and else appended with its arms |
| ExperimentVerdicts.EditExperimentDecides | web/services/experiments.py:320-366 | an edit is refused for the first frozen field it changes, a campaign that is over or its fields, and else rewrites the editable fields |
| ExperimentVerdicts.ExposeDecides | web/services/experiments.py:638-671 | one customer's exposure is refused for the first of its faults, and else one event for their assignment unless it had one in the minute before |
| ExperimentVerdicts.ExposeGroupDecides | web/services/experiments.py:688-731 | a group's exposure is refused for the first of its faults, and else one event for each selected assignment that had none in the minute before |
| ExperimentVerdicts.EvaluateDecides | web/services/experiment_conversions.py:60-81 | an evaluation is refused without the experiment or without assignments, and counts what it adds |
| ExperimentRuns.TransitionFreezes | web/services/campaigns.py:197-230 | a transition, prompt or late, keeps the invariant and everything frozen |
| ExperimentRuns.EditExperimentFreezes | web/services/experiments.py:320-366 | an edit cannot touch what assignments froze |
| ExperimentRuns.InsertKeepsSpaced | web/db/experiments.py:504-526 | exposures of one assignment stay at least 60 seconds apart |
| ExperimentRuns.StepFreezes | web/services/experiments.py:320-731 | every step keeps the invariant; assigned experiments keep window, metric, campaign, dates, arms and assignments; used campaigns keep their label |
| ExperimentRuns.RunFreezes | web/services/experiments.py:320-731 | so does every run |
| ExperimentArms.RunKeepsEven | web/services/experiments.py:432-541 | over every run the arms of an assigned experiment are non-empty and differ in size by at most one |
| ExperimentCounts.RowsCoverAssignments | web/db/experiment_conversions.py:152-198 | every assignment of the experiment is counted in exactly one row |
| ExperimentCounts.ControlComesFirst | web/db/experiment_conversions.py:152-198 | rows are in the listing order and a control can only be the first |
| ExperimentCounts.OutcomesPartition | web/db/experiment_conversions.py:152-198 | converted, pending and not converted add up to the assigned |
| ExperimentCounts.OutcomesAreSizes | web/db/experiment_conversions.py:152-198 | the counts are the arm's assignments, those recorded, those neither recorded nor closed, those neither recorded nor open, and those not recorded whose customer bought in their window |
| ExperimentCounts.LinksAreBought | web/db/experiment_conversions.py:121-149 | an evaluation records exactly the sales of assigned customers of their own from the assignment on and before the window closes |
| ExperimentCounts.StrangersChangeNoCount | web/db/experiment_conversions.py:152-198 | a sale by somebody not assigned changes none of an experiment's counts |
| ExperimentMeasure.ZeroGateMeansExact | web/services/experiment_uplift.py:167-179 | with nothing unrecorded, the converted are exactly those with a qualifying sale |
| ExperimentMeasure.AcceptedCountsAreBuyers | web/services/experiment_uplift.py:167-210 | counts compare_arms accepts are, arm by arm, the assigned customers with a sale of their own in [assigned, assigned + window), counted over the tables |
| UpliftRules.CompareDecides | web/services/experiment_uplift.py:167-210 | counts are refused for unrecorded sales, then a missing or empty control, then empty treatments, which are named, then no treatment; otherwise every treatment is compared with the first control, share minus share |
| ExperimentMeasure.EvaluationOpensGate | web/services/experiment_conversions.py:60-81 | after an evaluation nothing is unrecorded and evaluating again adds nothing |
| ExperimentMeasure.EveryRunMeasuresOneThing | web/services/experiments.py:320-354 | over every run and moment: what was assigned by then stays frozen, arms are even, recorded conversions qualify, exposures belong to treatments and lie in the dates exactly when stamped inside them, accepted counts are buyers |
| ExperimentMeasure.ExposureFrameCondition | web/services/experiments.py:613-671 | a written exposure lies in the experiment's dates exactly when the day it is stamped with does |
| ExperimentMeasure.GroupExposureFrameCondition | web/services/experiments.py:688-731 | so does each exposure a group's recording adds |
| ExperimentMeasure.RunFrameExactly | web/services/experiments.py:613-731 | over a run all exposures lie in the dates exactly when each was stamped inside them, which no overridden date ensures |
| ExperimentMeasure.OverrideLeavesFrame | web/services/experiments.py:639-671 | an overridden date can record an exposure outside them |
| ExperimentDesk.SplitCustomers | web/services/experiments.py:432-449 | the round-robin loop deals the specified arms |
| ExperimentDesk.ListRows | web/services/experiments.py:535-540 | rows arm after arm, customer after customer |
| ExperimentDesk.Desk.CreateCampaign | web/db/campaigns.py:107-146 | appends a draft, or refuses a resubmitted form or a constraint |
| ExperimentDesk.Desk.CreateExperiment | web/services/experiments.py:269-308 | the checks in order, then one experiment with its arms |
| ExperimentDesk.Desk.NumberArms | web/db/experiments.py:223-268 | arms get consecutive ids after the last, control first |
| ExperimentDesk.Desk.EditCampaign | web/services/campaigns.py:152-171 | edits a draft's fields, or refuses and changes nothing |
| ExperimentDesk.Desk.ChangeStatus | web/db/campaigns.py:175-189 | compare-and-set on the status read |
| ExperimentDesk.Desk.ActivationRefused | web/services/experiments.py:379-401 | refused exactly when an attached experiment's arms are not ready |
| ExperimentDesk.Desk.Transition | web/services/campaigns.py:197-230 | the checks in order, then the conditional update |
| ExperimentDesk.Desk.UpdateExperiment | web/services/experiments.py:320-366 | refuses the first frozen field that differs, or rewrites the editable ones |
| ExperimentDesk.Desk.AssignExperiment | web/services/experiments.py:528-541 | assigns once, or refuses in the plan's order |
| ExperimentDesk.Desk.AddExposure | web/db/experiments.py:514-526 | skips a repeat within 60 seconds |
| ExperimentDesk.Desk.ExposeCustomer | web/services/experiments.py:638-671 | records one exposure or refuses |
| ExperimentDesk.Desk.ExposeGroup | web/services/experiments.py:688-731 | records one event per selected member of a treatment arm, counting what was added |
| ExperimentDesk.Desk.EvaluateExperiment | web/services/experiment_conversions.py:60-81 | adds exactly the qualifying links not yet recorded |
| Ingestion.Ledger.InsertTransaction | web/db/sales.py:102-135 | adds a header with total 0, or refuses with the first failing constraint |
| Ingestion.Ledger.InsertLine | web/db/sales.py:138-154 | adds one line, or refuses |
| Ingestion.Ledger.DecrementStock | web/db/inventory.py:41-88 | takes stock exactly when enough is there, and says what was available |
| Ingestion.Ledger.RecomputeTotal | web/db/sales.py:157-172 | sets the total to the sum of the lines, unless it does not fit |
| Ingestion.Ledger.TryRow | web/services/ingestion.py:91-209 | the checks and statements of a row in order, with the verdict they give |
| Ingestion.Ledger.IngestRow | web/services/ingestion.py:91-209 | a row is committed whole or rolled back whole |
| IngestionVerdicts.AcceptedExactly | web/services/ingestion.py:91-209 | a row is taken exactly when it is plausible against catalog and clock, priced in whole cents in range, its sale agrees or may be new, and line, stock and total allow it |
| IngestionVerdicts.VerdictIsFirstFault | web/services/ingestion.py:91-209 | the verdict is the first fault in the order of the checks, each told over the row and the tables; without one the row fails exactly when the total would not fit |
| IngestionVerdicts.StripStrips | web/services/ingestion.py:94-97 | stripping takes the spaces off both ends and nothing else |
| IngestionLaws.AcceptedEffect | web/services/ingestion.py:91-209 | an accepted row adds one line, sets one total, takes one stock figure and touches no other sale |
| IngestionLaws.RowKeepsSound | web/services/ingestion.py:91-209 | each row keeps stock non-negative, totals reconciled and one line per product |
| IngestionLaws.RowConserves | web/db/inventory.py:41-88 | on hand plus sold is unchanged per store and product |
| IngestionLaws.EveryRunConserves | web/services/ingestion.py:91-209 | both hold over every sequence of rows under changing reference tables and clocks |
| IngestionLaws.ReplayIsRejected | web/services/ingestion.py:151-195 | an accepted row is never accepted again, whatever happened since |
| IngestionLaws.RefusalsLast | web/services/ingestion.py:91-209 | nothing a load does turns a refusal into an acceptance |
| IngestionLaws.ReloadChangesNothing | sql/01_schema.sql:418-431 | a file sent again in full changes nothing |
| Transactions.Session.Execute | web/db/transactions.py:18-50 | running service code over live connections and a stack of owners does what the semantics says and restores the stack |
| Transactions.RefusalIsInTheCode | web/db/transactions.py:18-50 | whether a call refuses does not depend on who owns the connection or what is stored |
| Transactions.WritesAreInTheCode | web/db/transactions.py:27-29 | below its owner a connection gains exactly what the code writes, refused or not, and commits none of it |
| Transactions.NestedCallsJoin | web/db/transactions.py:27-29 | below its owner nothing commits or rolls back a connection |
| Transactions.UnitIsAllOrNothing | web/db/transactions.py:30-48 | a unit of work commits what was waiting and everything its code writes, or neither, exactly as its code refuses or not |
| Transactions.BoundariesMeanNothingInside | web/db/transactions.py:27-29 | inside an owner, nested calls behave as if written in place |
| Transactions.HandledRefusalIsUndoneExactly | web/db/transactions.py:18-50 | after a handled refusal the connection is as before exactly when the call owned it with nothing uncommitted waiting, or joined and its code writes nothing before it refuses |
| Transactions.HandledRefusalCanBeCommitted | web/db/transactions.py:18-50 | a joined call that wrote and refused can be committed by its owner |
| LikeSearch.EscapedIsEachEscaped | web/db/search.py:13-16 | the three replacements escape each special character once and nothing else |
| LikeSearch.PatternMatchesLiteralSubstring | web/db/search.py:13-16 | the pattern matches a text exactly when the term occurs in it literally |
| LikeSearch.SearchFindsTheTerm | web/db/search.py:13-16 | the same without regard to case |
| LikeSearch.EscapesAreComplete | web/db/search.py:13-16 | no pattern ends in a lone escape |
| LikeSearch.EscapeMustGoFirst | web/db/search.py:15 | escaping the backslash last would match texts without the term |
| LikeSearch.WildcardsAreWild | web/db/search.py:13-16 | left unescaped an underscore matches any character and a percent sign any text |
| Ranks.ComputeRanks | analysis/normalization_study.py:59-70 | each value gets the number of smaller values plus half the number of other equal ones |
| Ranks.RanksKeepOrder | analysis/normalization_study.py:59-70 | ranks are ordered and tied exactly as the values are |
| Ranks.RanksSum | analysis/normalization_study.py:59-70 | ranks sum to n(n-1)/2 |
| RandIndex.PairsWithinCountsAlike | analysis/normalization_study.py:90-100 | summing c(c-1)/2 over the counter counts each pair of equal labels once |
| RandIndex.ScoreIsSymmetric | analysis/normalization_study.py:90-102 | the index is symmetric, refusals included |
| RandIndex.ScoreIsOneForTheSamePartition | analysis/normalization_study.py:90-102 | for n >= 2 it is at most 1, and 1 exactly for the same partition |
| RandIndex.RenamingScoresOne | analysis/normalization_study.py:90-102 | a labelling scores 1 against any renaming of itself |
| RandIndex.ScoreIsBeyondChance | analysis/normalization_study.py:90-102 | the index is the share of what the mean of both counts of pairs exceeds the expected by that the common pairs exceed it by |
| RandIndex.NothingToldScoresZero | analysis/normalization_study.py:90-102 | everything together, or everything apart, scores 0 against any labelling but its own partition |
| EtaSquared.GroupValues | analysis/normalization_study.py:83-85 | the dictionary of lists holds each group's values in order |
| EtaSquared.ComputeEta | analysis/normalization_study.py:77-87 | the loops compute the share, refusals included |
| EtaSquared.TotalIsBetweenPlusWithin | analysis/normalization_study.py:77-87 | total spread is spread between groups plus spread within them |
| EtaSquared.EtaIsAShare | analysis/normalization_study.py:77-87 | eta squared is in [0, 1], 0 for constant values, and otherwise 1 exactly when the group decides the value |
| ConsumptionShift.RankDominant | web/services/consumption_profile.py:191-196 | nothing ranks before the dominant item |
| ConsumptionShift.BuildLeaders | web/services/consumption_shift.py:278-313 | every customer with a channel and a store is ranked; a customer with no store entry is an error |
| ConsumptionShift.ComparePeriods | web/services/consumption_shift.py:336-388 | the loop over sorted customers computes the report |
| ConsumptionShift.ReportReconciles | web/services/consumption_shift.py:181-200 | customers are compared or absent, compared ones shifted or unchanged, undecided among the unchanged |
| ConsumptionShift.GroupLeaderLeads | web/services/consumption_shift.py:243-255 | the channel or store leader has the most purchases and the runner-up the most of the others |
| ConsumptionShift.CategoryLeaderLeads | web/services/consumption_shift.py:258-275 | so do the first two ranked categories |
| ConsumptionShift.ClearLeaderIsCounted | web/services/consumption_shift.py:127-137 | a decisive leader depends on purchase counts alone |
| ConsumptionShift.ShiftsDependOnCountsAlone | web/services/consumption_shift.py:243-388 | other spend, units or row order change no claimed shift, absence or unchanged count |
| UndecidedShifts.MoneyIsSilentExactly | web/services/consumption_shift.py:127-137 | re-spending cannot change whether a dimension is undecided exactly when each period has at most one item that can lead, or no item can lead both |
| UndecidedShifts.UndecidedDependsOnSpend | web/services/consumption_shift.py:331-333 | the same purchases give a report with one undecided customer or none |
| UndecidedReports.ReportIsSilentExactly | web/services/consumption_shift.py:336-388 | a report's undecided count is the same for every spending of the same purchases exactly when every compared customer has a claimed shift, or an undecided dimension spending cannot move, or three dimensions it cannot move |
| ConsumptionShift.PeriodsAreDisjoint | web/services/consumption_shift.py:205-226 | two sound periods are compared exactly when no instant lies in both, in either order of arguments |
| ShiftRules.PeriodsDecide | web/services/consumption_shift.py:205-226 | periods are refused for a bound without a zone, an empty span or an instant in common, in that order, and else come earlier first |
| ShiftRules.LeaderIsFirst | web/services/consumption_shift.py:243-275 | the leader has the most purchases, then (for categories) units, then spend, then the lowest id |
| ShiftRules.ClaimedExactly | web/services/consumption_shift.py:319-328 | a shift is claimed exactly when each period has three purchases or more and one item alone on top, and not the same one; it goes from the earlier period's to the later one's |
| ShiftRules.UndecidedExactly | web/services/consumption_shift.py:331-333 | a dimension is undecided exactly when another item leads and no shift is claimed |
| ShiftRules.ReportCounts | web/services/consumption_shift.py:336-388 | the report's numbers count the customers ranked in both periods, those with a claimed shift, and those undecided without one |
| ShiftRules.ReportSaysOf | web/services/consumption_shift.py:336-388 | who is ranked in one period only is listed as absent from the other, and a claimed shift is listed with what changes |
| ShiftRules.RankedOverOwnRows | web/services/consumption_shift.py:278-313 | a customer is ranked over their own rows, categories by the purchases with lines when those are known |
| ModelComparison.IndexRows | web/services/model_comparison.py:88-98 | indexed exactly when every label is known and no customer repeats |
| ModelComparison.CompareIndexed | web/services/model_comparison.py:119-181 | populations, cells, statuses and sorted customers are the counts of the two indexes |
| ModelComparison.CompareRuns | web/services/model_comparison.py:105-181 | compared exactly when both runs index |
| ModelComparisonLaws.EveryoneIsCounted | web/services/model_comparison.py:143-167 | everyone scored agrees, disagrees or is in one run only |
| ModelComparisonLaws.RowsSum | web/services/model_comparison.py:139-149 | a row sums to the customers of both runs the first run put there |
| ModelComparisonLaws.ColumnsSum | web/services/model_comparison.py:139-149 | a column sums to the customers of both runs the second run put there |
| ModelComparisonLaws.CellsSumToCompared | web/services/model_comparison.py:139-168 | all cells sum to the compared |
| ModelComparisonLaws.DiagonalIsAgreement | web/services/model_comparison.py:145-153 | the diagonal sums to the agreements exactly when no customer's two different labels share a cell |
| ModelComparisonLaws.DiagonalNeedsASeparateVocabulary | web/services/model_comparison.py:145-153 | that is so for all runs exactly when the vocabulary has no empty and no "Unassigned" label |
| ModelComparisonLaws.PopulationIsRowAndRest | web/services/model_comparison.py:125-149 | a label's population is its row and those only the first run scored |
| ModelComparisonLaws.PopulationIsColumnAndRest | web/services/model_comparison.py:125-149 | in the second run it is its column and those only that run scored |
| ModelComparisonLaws.SwappingTransposes | web/services/model_comparison.py:105-181 | swapping the runs transposes the table and swaps the counts |
| ModelComparisonLaws.CustomersAreInOrder | web/services/model_comparison.py:164 | customers are listed by name and then by id |
| ModelComparisonLaws.FiltersMatchCounts | web/services/model_comparison.py:184-197 | each filter leaves as many customers as its count says |
| Closure.WalkFindsWhatPathsReach | web/db/categories.py:115-135 | the UNION walk ends on any relation and finds exactly what paths reach |
| Closure.WalksAgree | web/db/categories.py:121-133 | walking down from one meets another exactly when walking up meets the first |
| Categories.GuardsAgree | sql/01_schema.sql:71-98 | the service's guard and the trigger refuse the same moves, on any table |
| Categories.Catalog.CreateCategory | web/db/categories.py:97-112 | inserts, or refuses with the first failing guard |
| Categories.Catalog.UpdateCategory | web/services/catalog.py:410-430 | moves and renames, or refuses; an absent id changes nothing |
| Categories.Catalog.UpdateStored | web/db/categories.py:138-154 | the statement under the trigger and the constraints alone |
| Categories.Catalog.DeleteCategory | web/db/categories.py:157-160 | deletes unless children or products refer to it |
| Categories.EveryRunKeepsForest | web/services/catalog.py:393-436 | every sequence of writes, whenever the service's guard was taken, keeps a forest with existing parents and distinct names |
| Categories.SecondOppositeMoveIsRefused | sql/01_schema.sql:66-117 | of two opposite moves that both passed the service's guard the trigger refuses the second, which would have stored a cycle |
| Categories.GuardIsExact | web/services/catalog.py:424-427 | moving a stored category under a stored parent leaves a forest exactly when the guard lets it |
| Categories.ForestHasNoCycle | sql/01_schema.sql:56-63 | in a forest no category lies below itself |
| CategoryVerdicts.GuardsLookAbove | sql/01_schema.sql:71-98 | both guards look for the category by climbing from parent to parent |
| CategoryVerdicts.CreateDecides | web/db/categories.py:97-112 | a new category is refused for lying below itself, a used id, a used name or a missing parent, in that order |
| CategoryVerdicts.UpdateDecides | web/services/catalog.py:410-430 | a change is refused for a cycle, a name in use or a missing parent; an absent category stays away |
| CategoryVerdicts.DeleteDecides | web/db/categories.py:157-160 | a category goes unless another one or a product is under it |

## Left out

- IEEE rounding, NaN and infinities in the analysis code: arithmetic is over exact reals, so tolerance and tie comparisons are exact.
- The generators behind the random streams and shuffles: any stream in [0, 1) and any permutation stand for them, so reproducibility from a seed is not stated.
- math.dist, math.sqrt: distance in the silhouette and the stopping rule is any non-negative function; cost uses squared distance itself.
- compare_proportions: p-values, confidence intervals and significance are not modelled, only the gate before them.
- recorded_parameters, KMeansParams type checks, and the labels of runs in text form.
- The timeline's narrative, recency figures and run windows; the streak query's R/F/M columns.
- LoginThrottle.Throttle.Check: each call is one step under the lock, with the instant it read before; how far instants step back is whatever the run shows.
- ExperimentRuns.StepFreezes: each operation under an experiment's row lock is one step; reads of other tables inside it are taken at that step, except that a campaign transition may be late.
- ExperimentDesk.Desk.UpdateDraft: end before start is refused by the caller here, where the database refuses it in the statement.
- ExperimentDesk.Desk.AssignExperiment: the unique constraint on (experiment, customer) is shown unreachable by the invariant rather than given a refusal.
- Exposed-conversion figures, A/A validation and injected-uplift fixtures: sums over the same tables.
- Business-date time zones: days are UTC days of whole seconds.
- Ingestion.Ledger.IngestRow: two sessions creating one source id at the same moment, NUL characters and alternative texts of one customer id are not modelled.
- IngestionLaws.ReloadChangesNothing: stated for the same reference tables and clock on both loads; a row refused as future may be taken later.
- Ingestion: each row owns its transaction; joining an outer owner is modelled in Transactions.
- LikeSearch.SearchFindsTheTerm: lowering is character by character, so texts whose lowered form has another length are not covered.
- ConsumptionShift.BuildLeaders: shares, top-category lists and the Synthetic mark are not computed.
- ModelComparison.CompareRuns: the vocabulary is given in its order; shares and the agreement rate are quotients of the counts.
- Categories.EveryRunKeepsForest: name and id formats are checked elsewhere; products are the set of categories they carry.
- pearson, spearman, quantile, and the study's tables.
- Routes, templates, sessions, roles, logging, deployment and the separate services.
