# Verified models of the inspection pipeline

This project models the algorithmic core of the surface-inspection system in Dafny and proves what those algorithms
are for. Each module follows one component of the C++ sources. Code that changes state step by step is a class or a
method over arrays, proved against a specification function; the properties that span several operations, whole runs or
all interleavings are lemmas about those functions. Numbers are exact reals and unbounded integers.

`dafny verify dfyconfig.toml` checks everything.

| module | what it models |
|---|---|
| `Basics`, `Digraph`, `Pigeonhole`, `Vectors` | options and bounds; paths, reachability, cycles; the pigeonhole principle; dot products and scalar facts |
| `PixelGrid`, `LabelForest`, `RegionStatistics`, `ConnectedComponents` | two-pass 4-connected labelling with a path-halving union-find, and the region proposals |
| `Resampling`, `Smoothing`, `DetectionResult` | bilinear upsampling, separable Gaussian blur, and the chain from patch scores to regions |
| `Coreset` | feature-bank construction: greedy furthest-point coreset and strided subsampling |
| `CandidateBuffer`, `DriftMonitor`, `EvolutionSignals`, `CoresetEvolution` | the double-buffered bank that evolves from frames passing every signal, with detection and update thread interleaved |
| `Cholesky`, `BayesianOptimizer` | factorisation, triangular solves and the cached Gaussian-process surrogate |
| `PcaScoring` | PCA reconstruction and its fast score |
| `ConflictResolver` | override elimination among matched rules |
| `RuleExpression`, `MemoEvaluation`, `OperatorLaws`, `ConditionBuilder`, `ConditionTexts`, `RuleEngine` | rule conditions, evaluation through a cache in the fact base, what operators answer, building conditions and when their texts differ, rule sets |
| `PluginManager` | plugin loading with dependencies, and shutdown |
| `PipelineValidator` | configuration checks, with Kahn's algorithm |
| `TaskGraph` | memoised execution of a dependency graph |
| `KnowledgeTraversal` | depth-limited traversal with one shared visited set |
| `FeatureCache` | the LRU cache |
| `DropAccounting`, `WorkerPool` | state machines for the bounded stage queue with its drop counter, and for the pool with its dispatch frames and its shutdown |

## Where the code does not do what it promises

Each of these is stated exactly, with the condition under which the promise holds.

- A traversal of depth 3 or more can miss a node within its depth, because a node reached first over a long path is not
  expanded again over a short one (`ShortcutMissesNode` gives a store for every such depth). It is complete on all stores
  of at most n nodes exactly when the depth is at most 2 or at least n (`CompleteExactlyWhen`).
- Two `not` conditions share the memo text `not`, so the second returns the value of the first
  (`SecondNegationReturnsTheFirst`), verdicts depend on rule order, and per-set snapshots differ from one pass
  (`NegationsInterfere`). The same happens to two thresholds whose six printed decimals agree
  (`CloseThresholdsShareText`). The cache is harmless exactly when nodes with equal texts have equal values
  (`HarmlessExactlyWhenCoherent`). That is so for conditions without `not` whose keys, paths and literals are single words,
  as long as literals that print alike are equal and no field key is also a path (`BuiltConditionsAreCoherent`).
- A plugin whose `OnStart` failed stays registered. Loading it again reports success, and a plugin that depends on it is
  loaded without it in the load order (`LoadAfterFailedStart`). The order lists every plugin after its dependencies
  exactly when no loaded plugin needs one whose start failed (`TopologicalExactlyWhen`), and which starts failed can be
  read off the results of the loads (`Manager.LoadAll`).
- When a rule name is matched twice, only its last entry is cleared, and a second resolution can still change something
  (`DuplicateNameNeedsSecondPass`, `SettledExactlyWhen`).
- The entry and exit checks that follow the cycle check of the pipeline validator can never reject
  (`EntryAndExitChecksAreDead`).
- The validator means to accept linear pipelines only, but it also accepts a stage with several inputs (`FanInIsAccepted`)
  and stages that nothing connects (`DisconnectedIsAccepted`). An accepted pipeline is one chain through all its stages
  exactly when a single stage has no dependencies (`LinearExactlyWhen`).
- The reconstruction score is 0 when every component is dropped, although the reconstruction is then the mean; it equals
  the reconstruction error exactly when some component is kept or the sample is the mean (`ScoreExactlyWhen`).
- With negative scores a region's maximum can exceed the image score, because the running maximum starts at zero;
  it does not exactly when no smoothed pixel lies above the threshold or the image score is not negative
  (`MaximaBoundedExactlyWhen`, with an input in `MaximumExceedsImage`).
- The drift alarm cannot go off: three values in a row can exceed the mean by two deviations exactly in windows of at least
  sixteen values (`AlarmReachableExactlyWhen`), and the window holds five (`AlarmNeverGoesOff`). So the drift reset is never
  taken and the standby bank is never dropped.
- An update merges into the standby bank, which is the bank before the last swap, so of two consecutive swaps the second
  discards what the first added (`Evolution.UpdateTwice`). The profile of a new bank is measured on the bank it replaces
  (`Evolution.SwapIn`).
- The evolution gate of a profile lies below its own consensus threshold, so it never rejects frames judged by the current
  profile. Frames of an earlier profile all pass exactly if that profile's threshold does not lie below the current gate
  (`GateStaysOpenExactlyWhen`). The gate closes only on a frame that was stored after a drain but judged before the profile
  changed (`Evolution.ClosedGateMetStaleFrame`), and it can (`LateFrameClosesTheGate`); the frames are then lost.
- The coverage pause is out of reach with the defaults: for a measured profile a frame counts towards it exactly if the
  saturation threshold lies below the novelty threshold, that one is positive and the former at most one
  (`SaturationReachableExactlyWhen`; otherwise nothing is ever counted, part of `Evolution.Sound`). Then a window of such
  frames in a row pauses the evolution (`Evolution.SaturationPauses`, `Evolution.PauseIsReached`).
- The assessment of a frame ignores the row length k of the distance table and reads as many entries from its front as there
  are patches. Its score is that of the patches' own distances exactly when k is one, or there is at most one patch
  (`ScoreLooksAtEveryPatchExactlyWhen`); with longer rows the last patches are never looked at.
- The number one and the truth value true are neither less, equal nor greater to each other, because equality does not
  convert while ordering does (`OrderedExactlyWhen`).
- The back-pressure setting DropOldest never takes effect: every push of the pipeline waits for room under the queue's lock,
  so nothing is ever dropped and the drop counter stays zero (`BlockingPushesNeverDrop`). A queue can drop exactly with that
  setting and a push outside the lock, of which there is none (`DropsExactlyWhen`).
- If there were such pushes, a second start would count the queue's earlier drops again, exactly when there were any
  (`SecondStartCountsAgain`, `OneDropCountedTwice`), and a compare-exchange that fails without a concurrent pop would lose the
  whole queue uncounted (`FailedExchangeLosesTheQueue`).
- A worker pool without threads accepts handles and never resumes them (`NoThreadNoResume`, `DrainedExactlyWhen`).
- Shutdown of a pool never ends once every remaining thread runs work that waits for a dispatch of its own to the same pool;
  otherwise it can end (`ShutdownFinishesExactlyWhen`), and without new dispatches it does (`EveryScheduleEnds`). A single thread gets there with one nested dispatch
  (`SelfDispatchNeverEnds`).
- The jitter retry of the surrogate skips a step: after four factors of ten it goes on with the sixth, not with the fifth
  (`Surrogate.TryJitters`).
- The top-up loop of the strided subsampling never runs, because the first loop always fills the quota (`Coreset.Subsample`).
  The last vector taken is within one stride of the end exactly if the quota divides the number of vectors
  (`LastTakenNearEndExactlyWhen`); of seven vectors and a quota of four the last three are never looked at (`LastThreeOfSeven`).
- A rule file cannot write a list as the value of a condition, so a written `in` is never true (`WrittenInNeverHolds`).

## Model

| member | source | states |
|---|---|---|
| LabelForest.Forest.FindRoot | src/detection/post_process_utils.cpp:117-124 | returns the root; halving the path changes the root of no label; terminates because parents never point upwards |
| LabelForest.HalvingKeepsRoots | src/detection/post_process_utils.cpp:119-121 | pointing a label at its grandparent keeps every root and the downward order |
| LabelForest.LinkingMergesTrees | src/detection/post_process_utils.cpp:142-147 | hanging the larger root under the smaller merges exactly their two trees |
| LabelForest.Forest.Join | src/detection/post_process_utils.cpp:142-147 | finds both roots and unites exactly their trees under the smaller root |
| PixelGrid.EarlierNeighbours | src/detection/post_process_utils.cpp:133-134 | the 4-neighbours before a pixel in raster order are exactly the one above and the one to the left in its row |
| PixelGrid.MergeKeepsSeparation | src/detection/post_process_utils.cpp:128-152 | merging exactly the labels touching a new pixel keeps "same label if and only if connected so far" |
| PixelGrid.SameLabelMeansConnected | src/detection/post_process_utils.cpp:127-152 | two foreground pixels have the same root if and only if a 4-connected foreground path joins them |
| ConnectedComponents.LabelPixel | src/detection/post_process_utils.cpp:130-151 | labelling one pixel extends the correct labelling by that pixel |
| ConnectedComponents.FirstPass | src/detection/post_process_utils.cpp:126-152 | after the first pass roots separate the components of the whole image |
| ConnectedComponents.SecondPass | src/detection/post_process_utils.cpp:169-186 | relabelling keeps every root, and every root's record summarises exactly its pixels |
| ConnectedComponents.StatisticsAreExact | src/detection/post_process_utils.cpp:158-186 | counts, sums, maxima and extents accumulated pixel by pixel are those of the pixel set |
| ConnectedComponents.BuildRegions | src/detection/post_process_utils.cpp:188-207 | one proposal per component, with its exact area, mean, maximum and tightest box |
| ConnectedComponents.Label | src/detection/post_process_utils.cpp:107-216 | the whole algorithm: exactly the components' regions, by descending maximum score; nothing for an empty image |
| ConnectedComponents.ExactRegionsAreUnique | src/detection/post_process_utils.cpp:107-216 | the specification of the result admits only one set of regions |
| ConnectedComponents.RegionsExistWhenForegroundDoes | src/detection/post_process_utils.cpp:154-155 | there is a region if and only if there is a foreground pixel |
| RegionStatistics.PixelIncluded | src/detection/post_process_utils.cpp:177-184 | one more pixel keeps count, sum, maximum and tight extents exact |
| RegionStatistics.ProposalDescribes | src/detection/post_process_utils.cpp:191-206 | the emitted proposal has the exact area and mean and the tightest box of its pixels |
| RegionStatistics.SortByScore | src/detection/post_process_utils.cpp:209-213 | the same proposals, by descending maximum score |
| RegionStatistics.AverageBetween | src/detection/post_process_utils.cpp:202-204 | a mean of scores in (lo, hi] lies in (lo, hi] |
| Resampling.BilinearUpsample | src/detection/post_process_utils.cpp:18-53 | fills every target pixel with the interpolated source value; empty when a size is zero |
| Resampling.UpsampledWithin | src/detection/post_process_utils.cpp:30-51 | upsampled values stay within the range of the source |
| Resampling.InterpolationIsExact | src/detection/post_process_utils.cpp:31-50 | every surface that is linear along each axis is reproduced exactly at every coordinate |
| Resampling.UpsampledSurface | src/detection/post_process_utils.cpp:30-51 | so each upsampled pixel of such a surface has its value at the pixel's source coordinates |
| Resampling.CoordinatesReflect | src/detection/post_process_utils.cpp:29-37 | target lines equally far from the two ends have source coordinates equally far from them |
| Resampling.CoordinatesAreSpaced | src/detection/post_process_utils.cpp:29-37 | away from the ends neighbouring target lines are source/target apart |
| Resampling.SameSizeIsIdentity | src/detection/post_process_utils.cpp:31-51 | upsampling to the same size changes nothing |
| Smoothing.BuildKernel | src/detection/post_process_utils.cpp:62-72 | the weights are positive, symmetric and sum to one; with an increasing exponential they fall off strictly from the middle, and with exp(a+b) = exp(a)exp(b) the one at a steps is the middle one times exp(-a^2 / 2 sigma^2) |
| Smoothing.KernelIsKernel | src/detection/post_process_utils.cpp:62-72 | the weights are positive, symmetric and sum to one |
| Smoothing.KernelFallsOff | src/detection/post_process_utils.cpp:67-70 | of two weights the one nearer to the middle is larger |
| Smoothing.OneSigmaOut | src/detection/post_process_utils.cpp:69 | one sigma from the middle the weight is the middle one times exp(-1/2) |
| Smoothing.StepsCombine | src/detection/post_process_utils.cpp:69 | where a^2 + b^2 = d^2, the weights at a and b have the product of the middle one and the one at d |
| Smoothing.SpikeSpreads | src/detection/post_process_utils.cpp:77-101 | a single bright pixel is blurred into the kernel times the kernel, centred on it, and nothing outside three sigma |
| Smoothing.SpikeStaysBrightest | src/detection/post_process_utils.cpp:57-103 | and it stays strictly the brightest one |
| Smoothing.PaddingChangesNothing | src/detection/post_process_utils.cpp:80-98 | repeating the border lines around an image changes no blurred pixel |
| Smoothing.GaussianBlur | src/detection/post_process_utils.cpp:57-103 | a horizontal and then a vertical weighted pass with clamped borders; a copy for sigma zero |
| Smoothing.BlurredWithin | src/detection/post_process_utils.cpp:77-101 | blurred values stay within the range of the input, so constants are kept |
| Smoothing.PassesCommute | src/detection/post_process_utils.cpp:77-101 | vertical first gives the same image as horizontal first |
| Smoothing.RowsThenColumns | src/detection/post_process_utils.cpp:77-101 | the two passes equal the two-dimensional weighted sum over the image with repeated borders |
| DetectionResult.MaxScore | src/detection/detection_result.cpp:7-10 | the largest score, attained; zero for no scores |
| DetectionResult.BuildDetectionResult | src/detection/post_process_utils.cpp:238-274 | image score is the largest patch score, and the regions are exactly those of the smoothed scores above the threshold |
| DetectionResult.ImageScoresWithin | src/detection/post_process_utils.cpp:252-259 | maximum principle: no smoothed pixel leaves the range of the patch scores |
| DetectionResult.RegionMeans | src/detection/post_process_utils.cpp:238-274 | every region's mean lies in (threshold, image score], for every threshold |
| DetectionResult.RegionMaxima | src/detection/post_process_utils.cpp:238-274 | for a threshold of at least zero so does every maximum |
| DetectionResult.QuietImageHasNoRegions | src/detection/post_process_utils.cpp:250-267 | an image score at or below the threshold leaves no region |
| DetectionResult.RegionsExactlyWhenPixels | src/detection/post_process_utils.cpp:255-267 | there is a region exactly when some smoothed pixel exceeds the threshold |
| DetectionResult.MaximaBoundedExactlyWhen | src/detection/post_process_utils.cpp:159-177 | all maxima are bounded by the image score exactly when the largest patch score is not negative or no smoothed pixel exceeds the threshold |
| DetectionResult.MaximumExceedsImage | src/detection/post_process_utils.cpp:159-177 | with negative scores only and a threshold below them all, some region's maximum exceeds the image score |
| DetectionResult.LowThresholdFindsRegions | src/detection/post_process_utils.cpp:261-267 | a threshold below every patch score yields regions |
| Coreset.Collect | src/detection/feature_bank.cpp:231-267 | all patch vectors in order, or the first applicable error |
| Coreset.RowsJoin | src/detection/feature_bank.cpp:243-258 | the rows of two lists of embeddings are joined in order; a null entry gives none |
| Coreset.GreedySelect | src/detection/feature_bank.cpp:269-320 | a furthest-point traversal from patch 0, with the cached distances equal to the nearest chosen distance throughout |
| Coreset.BuildWithGreedyCoreset | src/detection/feature_bank.cpp:227-351 | fails exactly for no input, mixed dimensions or no patches; otherwise the bank holds a furthest-point traversal |
| Coreset.ChosenAreSeparated | src/detection/feature_bank.cpp:294-320 | chosen points are pairwise at least the final covering radius apart |
| Coreset.GreedyIsTwoApproximation | src/detection/feature_bank.cpp:269-320 | for any k centres covering with squared radius rho, k greedy points cover with at most 4 rho |
| Coreset.GreedyBankIsTwoApproximation | src/detection/feature_bank.cpp:322-350 | the same for the vectors stored in the bank |
| Coreset.BuildFromEmbeddings | src/detection/feature_bank.cpp:150-225 | the first applicable error for any maximum; without one, exactly min(max, total) vectors at equal strides for a positive maximum |
| Coreset.StridedBankTakesMultiples | src/detection/feature_bank.cpp:196-219 | when not all fit, the vectors taken are those at the multiples of the largest stride for which the quota fits |
| Coreset.LastTakenNearEndExactlyWhen | src/detection/feature_bank.cpp:199-209 | the last one is within one stride of the end exactly if the quota divides the total; otherwise fewer than the quota are left beyond that |
| Coreset.LastThreeOfSeven | src/detection/feature_bank.cpp:199-209 | with seven vectors and a quota of four the first four are taken |
| CandidateBuffer.Buffer.Append | src/detection/candidate_buffer.cpp:9-21 | takes the frame exactly when neither limit would be exceeded |
| CandidateBuffer.Buffer.DrainAll | src/detection/candidate_buffer.cpp:29-33 | hands over everything and leaves the buffer empty |
| DriftMonitor.DriftAlarm | src/detection/coreset_evolution.cpp:197-216 | computes mean and deviation of the window and compares the last three values |
| DriftMonitor.WindowHoldsLast | src/detection/coreset_evolution.cpp:193-196 | the window holds the last five displacements in order |
| DriftMonitor.AlarmNeedsSixteen | src/detection/coreset_evolution.cpp:199-216 | an alarm needs at least sixteen values, for any displacements |
| DriftMonitor.AlarmReachableExactlyWhen | src/detection/coreset_evolution.cpp:199-216 | some window of a length sets off the alarm exactly from sixteen on |
| DriftMonitor.AlarmNeverGoesOff | src/detection/coreset_evolution.cpp:192-238 | in a window of at most five the alarm is always off |
| EvolutionSignals.MultiSignalConsensusCheck | src/detection/multi_signal_consensus.cpp:9-35 | true exactly when all five signals call the frame normal |
| CoresetEvolution.Evolution.constructor | src/detection/coreset_evolution.cpp:240-283 | the standby bank starts as a copy of the active one, unless the dimension is zero |
| CoresetEvolution.Evolution.AssessAndOffer | src/detection/coreset_evolution.cpp:293-376 | a frame is stored exactly if it passes all five signals, is novel, does not complete a window of saturated frames and fits the buffer; the saturation count and the pause follow exactly |
| CoresetEvolution.Evolution.SaturationPauses | src/detection/coreset_evolution.cpp:338-354 | any window of nearly covered wanted frames in a row pauses the evolution and the last of them is not stored |
| CoresetEvolution.Evolution.PauseIsReached | src/detection/coreset_evolution.cpp:338-354 | from every state with a measured profile and such thresholds there is a run that pauses |
| CoresetEvolution.PrefilterCandidates | src/detection/coreset_evolution.cpp:77-93 | everything when it fits, otherwise exactly the target number at equal strides |
| CoresetEvolution.PrefilterTakesMultiples | src/detection/coreset_evolution.cpp:84-91 | the vectors kept are those at the multiples of the largest stride for which the target fits |
| CoresetEvolution.VectorsJoin | src/detection/coreset_evolution.cpp:415-423 | the vectors of two lists of candidates are joined in order |
| CoresetEvolution.SelfValidate | src/detection/coreset_evolution.cpp:486-527 | degraded exactly if fewer of the sampled old vectors lie within the new median of the new bank than the expected share |
| CoresetEvolution.SamplesAreDistinct | src/detection/coreset_evolution.cpp:500-509 | the sampled positions are distinct positions of the old bank, at equal strides from the front |
| CoresetEvolution.NearerHasMore | src/detection/coreset_evolution.cpp:513-527 | a bank at least as near to every old vector is never the one that is degraded alone |
| CoresetEvolution.Evolution.Drain | src/detection/coreset_evolution.cpp:391-395 | the update thread takes exactly the buffered frames; without any it goes back to rest |
| CoresetEvolution.Evolution.Merge | src/detection/coreset_evolution.cpp:397-484 | swaps exactly if the gate is open, there is a standby bank and the target is positive; the new bank is the greedy merge of standby bank and drained frames, and the profile is measured on the replaced bank |
| CoresetEvolution.Evolution.Validate | src/detection/coreset_evolution.cpp:486-544 | a rejected swap restores exactly the previous bank and profile and leaves the new bank as standby; otherwise nothing changes |
| CoresetEvolution.Evolution.UpdateCycle | src/detection/coreset_evolution.cpp:380-586 | with frames arriving at any time: idle exactly for a closed gate, no standby bank or target zero; otherwise a greedy merge of the frames drained is swapped in and settled as above |
| CoresetEvolution.Evolution.RejectedExactlyWhen | src/detection/coreset_evolution.cpp:513-527 | a settled swap was rejected exactly if self-validation is on and the share of sampled vectors near the new bank is below the replaced bank's own normalcy (or one half) times the threshold |
| CoresetEvolution.Evolution.CoveringBankIsKept | src/detection/coreset_evolution.cpp:513-541 | a new bank near every vector of the replaced one is kept, and one near none of them is rejected |
| CoresetEvolution.Evolution.NearerBankIsKept | src/detection/coreset_evolution.cpp:513-541 | smaller distances never turn a kept swap into a rejected one |
| CoresetEvolution.GateStaysOpenExactlyWhen | src/detection/coreset_evolution.cpp:397-412 | all frames judged by one profile pass the gate of another exactly when that gate does not exceed the threshold they passed; a profile's own gate does not |
| CoresetEvolution.Evolution.ClosedGateMetStaleFrame | src/detection/coreset_evolution.cpp:393-482 | in every reachable state a gate that closes meets a frame judged by a profile that has been replaced since |
| CoresetEvolution.LateFrameClosesTheGate | src/detection/coreset_evolution.cpp:393-482 | a run in which a frame stored between drain and swap closes the next gate |
| EvolutionSignals.NormalcyMeaning | src/detection/coreset_evolution.cpp:35-59 | the score lies in [0, 1]; it is 1 exactly when no distance read exceeds the 95th percentile or tails are not counted |
| EvolutionSignals.NormalcyFallsLinearly | src/detection/coreset_evolution.cpp:35-59 | it falls in proportion to the number of distances beyond the 95th percentile, and is zero exactly from the tolerated share on |
| EvolutionSignals.CoverageCounts | src/detection/coreset_evolution.cpp:66-70 | the coverage, taken of all patches, is the number of distances below the median |
| EvolutionSignals.ThresholdsScale | src/detection/normality_profile.cpp:150-158 | a frame needs four fifths and an update seven tenths of the bank's own normalcy |
| EvolutionSignals.ScoreLooksAtEveryPatchExactlyWhen | src/detection/coreset_evolution.cpp:293-330 | over all proper distance tables, the score is that of every patch's j-th nearest distance exactly if the row length is one, or there is at most one patch and j is its first |
| EvolutionSignals.SaturationReachableExactlyWhen | src/detection/coreset_evolution.cpp:328-354 | for a measured profile some wanted frame is saturated exactly if saturation < novelty threshold, 0 < novelty threshold and saturation threshold <= 1 |
| CoresetEvolution.Evolution.UpdateTwice | src/detection/coreset_evolution.cpp:427-471 | after two swaps the active bank holds only vectors of the bank before both and of frames that arrived since the first drain |
| CoresetEvolution.Evolution.BeginRebuild | src/detection/coreset_evolution.cpp:629-634 | the rebuild takes exactly the buffered frames |
| CoresetEvolution.Evolution.FullRebuild | src/detection/coreset_evolution.cpp:623-755 | with frames arriving before its end: on success the active bank is the greedy coreset of standby bank and the candidates drained; otherwise banks and profiles are unchanged; later frames stay in the buffer |
| CoresetEvolution.Evolution.Run | src/detection/coreset_evolution.cpp:293-755 | over any interleaving of offers, update steps and rebuilds: every bank vector is initial or from an accepted frame, banks stay within max(initial, target), and a standby bank is never lost |
| Cholesky.CholeskyDecompose | src/tuning/bayesian_optimizer.cpp:78-98 | succeeds exactly for positive definite matrices, and then the factor is lower triangular with positive diagonal and reproduces the matrix |
| Cholesky.FactorIsPositiveDefinite | src/tuning/bayesian_optimizer.cpp:78-98 | a matrix with such a factor is positive definite |
| Cholesky.PivotWitness | src/tuning/bayesian_optimizer.cpp:89-91 | a pivot that is not positive yields a vector refuting positive definiteness |
| Cholesky.SolveCholesky | src/tuning/bayesian_optimizer.cpp:100-123 | forward and backward substitution in one array give x with L (L^T x) = b |
| Cholesky.SolutionOfFactor | src/tuning/bayesian_optimizer.cpp:100-123 | hence K x = b |
| Cholesky.SolutionIsUnique | src/tuning/bayesian_optimizer.cpp:100-123 | and x is the only solution |
| BayesianOptimizer.Surrogate.AddObservation | src/tuning/bayesian_optimizer.cpp:21-24 | appends the observation and invalidates the cache |
| BayesianOptimizer.Surrogate.BuildKernelMatrix | src/tuning/bayesian_optimizer.cpp:62-76 | the loops fill the kernel matrix with the noise on its diagonal |
| BayesianOptimizer.MatrixRowsAreKernelRows | src/tuning/bayesian_optimizer.cpp:66-74 | row i holds the kernel values of point i, and the prior variance plus the noise for itself |
| BayesianOptimizer.NearerIsLarger | src/tuning/bayesian_optimizer.cpp:45-48 | the nearer of two points has the larger kernel value |
| BayesianOptimizer.KernelValuesBounded | src/tuning/bayesian_optimizer.cpp:45-48 | a kernel value is positive and at most the prior variance, which it reaches exactly at the point itself |
| BayesianOptimizer.KernelValueIs | src/tuning/bayesian_optimizer.cpp:47 | it is the prior variance times exp(-d / 2 length^2) for the squared distance d |
| BayesianOptimizer.KernelValueOneStepOut | src/tuning/bayesian_optimizer.cpp:47 | at a squared distance of 2 length^2 it is down by exp(-1) |
| BayesianOptimizer.Surrogate.EnsureCache | src/tuning/bayesian_optimizer.cpp:127-173 | the cache is left invalid exactly when none of the six jittered matrices is positive definite; otherwise it holds factor and solution for the first that is |
| BayesianOptimizer.JitterSpans | src/tuning/bayesian_optimizer.cpp:136-159 | the fifth attempt has ten thousand times the jitter of the first, the last one a million times |
| BayesianOptimizer.Surrogate.Predict | src/tuning/bayesian_optimizer.cpp:175-204 | the posterior mean and variance of the cached system; the variance lies between zero and the prior variance; without noise and jitter every observation is met with certainty |
| BayesianOptimizer.Surrogate.Interpolates | src/tuning/bayesian_optimizer.cpp:175-204 | without noise and jitter the mean at an observed point is its cost and the variance zero |
| BayesianOptimizer.Surrogate.SingleObservation | src/tuning/bayesian_optimizer.cpp:175-204 | with one observation the mean lies between zero and its cost, strictly away from the point for a cost other than zero, and the variance is zero exactly at the point |
| BayesianOptimizer.ExplainedIsSquare | src/tuning/bayesian_optimizer.cpp:187-201 | the explained variance is a sum of squares |
| PcaScoring.Score | src/embedding/pca_scoring.cpp:53-115 | the loops compute the reconstruction and Euclidean scores, zero when every component is dropped |
| PcaScoring.PcaReconstruct | src/embedding/pca_scoring.cpp:22-49 | adds the kept components and the mean in place |
| PcaScoring.ResidualFacts | src/embedding/pca_scoring.cpp:31-46 | with orthonormal components each projection takes exactly its energy from the residual |
| PcaScoring.FastScoreIsReconstructionError | src/embedding/pca_scoring.cpp:70-88 | the fast score is the squared distance to the reconstruction, and the clamp at zero never acts |
| PcaScoring.ScoreExactlyWhen | src/embedding/pca_scoring.cpp:63-88 | that equality holds exactly when a component is kept or the sample is the mean |
| PcaScoring.ScoresAddUp | src/embedding/pca_scoring.cpp:70-115 | reconstruction and Euclidean score add up to the squared distance from the mean |
| PcaScoring.DroppedAreTheFirst | src/embedding/pca_scoring.cpp:22-115 | dropping k components gives the scores and the reconstruction of the parameters without their first k components |
| ConflictResolver.ColourWalk.Visit | src/rule/conflict_resolver.cpp:81-94 | a finished visit leaves only finished nodes off every cycle; a back edge is a real cycle |
| ConflictResolver.BuildGraph | src/rule/conflict_resolver.cpp:50-72 | the graph is exactly the override relation among matched rules |
| ConflictResolver.ResolveOverrideConflicts | src/rule/conflict_resolver.cpp:30-134 | reports a cycle exactly when the override graph has one, then changing nothing; otherwise clears exactly the overridden rules |
| ConflictResolver.SettledExactlyWhen | src/rule/conflict_resolver.cpp:115-131 | when no survivor overrides a survivor, exactly |
| ConflictResolver.AgainExactlyWhenSettled | src/rule/conflict_resolver.cpp:115-131 | resolving again changes nothing exactly when the first pass settled everything |
| ConflictResolver.UniqueNamesSettle | src/rule/conflict_resolver.cpp:115-131 | with unique matched names no survivor overrides another, and resolving again changes nothing |
| ConflictResolver.ChainFromSurvivor | src/rule/conflict_resolver.cpp:115-131 | every matched rule is reached by an override chain from a survivor |
| ConflictResolver.SomeoneSurvives | src/rule/conflict_resolver.cpp:115-131 | some rule survives if any matched |
| ConflictResolver.DuplicateNameNeedsSecondPass | src/rule/conflict_resolver.cpp:42-48 | a name matched twice can need a second pass |
| RuleExpression.CallBuiltin | src/rule/expression.cpp:285-373 | the loops compute the built-ins, Null for missing or non-numeric operands |
| OperatorLaws.SumAnswer | src/rule/expression.cpp:347-357 | a call of the sum answers the total of its operands |
| OperatorLaws.AverageAnswer | src/rule/expression.cpp:287-300 | the average is the number that gives the total when added up once per operand |
| OperatorLaws.LargestAnswer | src/rule/expression.cpp:305-324 | the maximum is the operand above which there is none |
| OperatorLaws.SmallestAnswer | src/rule/expression.cpp:326-345 | the minimum is the operand below which there is none |
| OperatorLaws.NoNumberNoAnswer | src/rule/expression.cpp:287-357 | an operand that is not a number, or a missing one where one is needed, gives Null |
| OperatorLaws.SizeAnswers | src/rule/expression.cpp:302-370 | Count answers the number of operands, Len the length of the first |
| RuleExpression.MaxOf | src/rule/expression.cpp:306-325 | the largest operand, and it is one of them |
| RuleExpression.MinOf | src/rule/expression.cpp:327-346 | the smallest operand, and it is one of them |
| RuleExpression.OrderedExactlyWhen | src/rule/expression.cpp:170-176 | of two numeric values one of the inclusive comparisons holds, unless they are one number in two types; less and greater mirror each other |
| OperatorLaws.EqualityAnswers | src/rule/expression.cpp:169-170 | a field against a literal: Eq is true exactly if the stored fact is the literal, Neq is its negation |
| OperatorLaws.MembershipAnswers | src/rule/expression.cpp:177-188 | In is true exactly for an equal item of a list |
| OperatorLaws.OrderAnswers | src/rule/expression.cpp:172-175 | the orderings compare the numbers that the two values stand for, the weak ones also accept equal values |
| OperatorLaws.NoOrderWithoutNumbers | src/rule/expression.cpp:172-175 | without a number on each side only equality is left |
| OperatorLaws.SumIsAnswered | src/rule/expression.cpp:164 | Add answers the sum |
| OperatorLaws.DifferenceIsAnswered | src/rule/expression.cpp:165 | Sub answers exactly the number that gives the fact when the literal is added |
| OperatorLaws.ProductIsAnswered | src/rule/expression.cpp:166 | Mul answers the product |
| OperatorLaws.QuotientIsAnswered | src/rule/expression.cpp:167 | Div answers exactly the number that gives the fact when multiplied with the literal, and Null for a literal of zero |
| OperatorLaws.NoArithmeticWithoutNumbers | src/rule/expression.cpp:164-167 | without a number on each side arithmetic answers Null |
| OperatorLaws.UnaryAnswers | src/rule/expression.cpp:231-247 | Not reverses a truth value, Neg is the number that adds up with the operand to zero; Null for other values |
| OperatorLaws.MissingFieldFails | src/rule/expression.cpp:88-99 | a missing field is an error that every operator reading it first passes on |
| OperatorLaws.PathAnswers | src/rule/expression.cpp:408-417 | a path reads the fact its mapping names, without mapping and arrows the fact of its own name |
| OperatorLaws.ArrowPathAnswers | src/rule/expression.cpp:394-417 | an arrow between two names reads the fact with a dot between them |
| RuleExpression.OperandsInOrder | src/rule/expression.cpp:275-283 | operands are evaluated in order, each to one value, and the first failing one decides |
| RuleExpression.FlattenRemovesArrows | src/rule/expression.cpp:394-406 | a flattened path holds no arrow, and one without arrows is unchanged |
| MemoEvaluation.MemoKeysCollide | src/rule/expression.cpp:15-17 | two texts share a memo key exactly when their hashes collide |
| MemoEvaluation.FactBase.Evaluate | src/rule/expression.cpp:19-41 | result and fact base afterwards are those of evaluation through the cache; only successes are stored |
| MemoEvaluation.FactBase.EvaluateBinary | src/rule/expression.cpp:120-194 | left side first, short-circuit, failures passed on |
| MemoEvaluation.FactBase.EvaluateFunction | src/rule/expression.cpp:273-375 | operands from left to right up to the first failure |
| MemoEvaluation.FactBase.AddPathMapping | src/rule/fact_base.cpp:40-42 | the first mapping of a path stays |
| MemoEvaluation.FactBase.Snapshot | src/rule/fact_base.cpp:78-80 | an independent copy with the same contents |
| MemoEvaluation.MemoIsPlain | src/rule/expression.cpp:19-423 | with coherent texts, evaluation through a sound cache gives the plain value, keeps the cache sound and changes no other fact |
| MemoEvaluation.HarmlessExactlyWhenCoherent | src/rule/expression.cpp:19-41 | every two evaluations give plain values exactly when nodes with equal texts have equal values |
| ConditionBuilder.BuildExpression | src/rule/condition_builder.cpp:139-226 | builds the expression of a parsed condition, with its error cases |
| ConditionBuilder.AndReadsLeftToRight | src/rule/condition_builder.cpp:165-184 | a node with an and-list is built into an expression that decides as reading the list from left to right does |
| ConditionBuilder.OrReadsLeftToRight | src/rule/condition_builder.cpp:187-206 | likewise a node with an or-list |
| ConditionBuilder.NotReverses | src/rule/condition_builder.cpp:209-214 | a negated node is true exactly when its operand is false, Null when that is no truth value, and fails with it |
| ConditionBuilder.LiteralKinds | src/rule/condition_builder.cpp:43-73 | digits are read as an integer, a text with a dot as a decimal number, one with a letter as a string; no literal is a list |
| OperatorLaws.WrittenEquality | src/rule/condition_builder.cpp:26-133 | a written eq or neq compares the stored fact with the literal |
| OperatorLaws.WrittenOrder | src/rule/condition_builder.cpp:26-133 | written lt, le, gt and ge compare the numbers the two stand for |
| OperatorLaws.WrittenSum | src/rule/condition_builder.cpp:26-133 | a written add answers the sum |
| OperatorLaws.WrittenDifference | src/rule/condition_builder.cpp:26-133 | a written sub answers the difference |
| OperatorLaws.WrittenProduct | src/rule/condition_builder.cpp:26-133 | a written mul answers the product |
| OperatorLaws.WrittenQuotient | src/rule/condition_builder.cpp:26-133 | a written div answers the quotient, Null for a literal of zero |
| OperatorLaws.WrittenInNeverHolds | src/rule/condition_builder.cpp:44-133 | a written in is false for every fact, because no literal is a list |
| MemoEvaluation.SameTextSameResult | src/rule/expression.cpp:29-32 | once a text has a result, every node with that text gets it |
| ConditionBuilder.CloseThresholdsShareText | src/rule/condition_builder.cpp:126-132 | two thresholds that print alike share a text, and for a value between them the second returns the first's result |
| ConditionBuilder.SecondNegationReturnsTheFirst | src/rule/condition_builder.cpp:209-214 | after one negation, another with a different operand returns its cached value |
| RuleEngine.EvaluateRuleSet | src/rule/rule_engine.cpp:124-169 | one result per rule: its condition through the shared cache, true without one, false on failure |
| RuleEngine.RuleMatchesExactlyWhen | src/rule/rule_engine.cpp:141-165 | a rule is answered under its name with its action, and matches exactly if it has no condition or its condition evaluates to true at its turn |
| RuleEngine.MissingFieldNeverMatches | src/rule/rule_engine.cpp:149-153 | a condition on a missing field never matches |
| RuleEngine.EvaluateAll | src/rule/rule_engine.cpp:175-203 | every set on its own copy; the caller's facts are unchanged |
| RuleEngine.ResolveConflicts | src/rule/rule_engine.cpp:209-227 | the resolved evaluation, or the unchanged one on a cycle |
| ConditionTexts.Unambiguous | src/rule/condition_builder.cpp:126-206 | a text can be read in one way only: two clean conditions at the start of one text are the same |
| ConditionTexts.BuiltConditionsAreCoherent | src/rule/condition_builder.cpp:76-226 | conditions built from clean nodes have coherent texts over all facts, if literals printing alike are equal and no field key is also a path |
| RuleEngine.StaysSafe | src/rule/rule_engine.cpp:124-169 | evaluating a rule set leaves a sound cache for the next |
| RuleEngine.OrderDoesNotMatter | src/rule/rule_engine.cpp:124-169 | with coherent texts and sound caches a rule's verdict does not depend on its place, on the other rules or on what has been cached before |
| RuleEngine.SnapshotsEqualOnePass | src/rule/rule_engine.cpp:175-203 | with coherent texts and a sound cache per-set copies give what one pass over all rules gives |
| RuleEngine.NegationsInterfere | src/rule/condition_builder.cpp:209-214 | with two negated conditions both of these fail |
| PluginManager.RangeIsHalfOpen | src/plugin/plugin_manager.cpp:61-76 | ranges are half-open by major and minor number; the patch number is ignored |
| PluginManager.Manager.EnsureLoaded | src/plugin/plugin_manager.cpp:178-198 | terminates for every manifest index; success means registered, every error names a real fault below the plugin, a circular dependency a real cycle |
| PluginManager.Manager.ResolveEach | src/plugin/plugin_manager.cpp:200-216 | on success every dependency is registered in its version range |
| PluginManager.Manager.LoadSingle | src/plugin/plugin_manager.cpp:218-240 | rejected, registered only, or started, exactly by its checks and the four library calls |
| PluginManager.Manager.Load | src/plugin/plugin_manager.cpp:152-155 | keeps the load-order invariant; the failed plugins grow by exactly the one a lifecycle error names; a name once registered loads without effect |
| PluginManager.Manager.LoadAll | src/plugin/plugin_manager.cpp:152-240 | over any sequence of loads: failed starts are exactly those reported, each comes from a failed library call, and the order is topological exactly when no loaded plugin needs one of them |
| PluginManager.Manager.LoadAllFresh | src/plugin/plugin_manager.cpp:152-240 | if no load reports a failed start, in particular if every library call succeeds: no duplicates, dependencies first, all in version range |
| PluginManager.TopologicalExactlyWhen | src/plugin/plugin_manager.cpp:218-240 | the load order lists plugins after their dependencies exactly when none needs one whose start failed |
| PluginManager.NoFailureMeansTopological | src/plugin/plugin_manager.cpp:178-240 | the same for any sound state without failed starts |
| PluginManager.LoadedIsAcyclic | src/plugin/plugin_manager.cpp:178-198 | when no start failed, no loaded plugin lies on or leads to a cycle |
| PluginManager.LoadAfterFailedStart | src/plugin/plugin_manager.cpp:178-240 | a run in which a plugin loads although its dependency failed to start |
| PluginManager.Manager.Shutdown | src/plugin/plugin_manager.cpp:161-163 | stops all loaded plugins in reverse and returns the first failure |
| PluginManager.FirstFailureIsFirst | src/plugin/plugin_manager.cpp:242-252 | the reported failure is the earliest failing call; none is reported exactly when none failed |
| PluginManager.StopsInReverse | src/plugin/plugin_manager.cpp:242-252 | each loaded plugin is stopped once, in reverse load order |
| PipelineValidator.IsAcyclic | src/pipeline/pipeline_builder.cpp:214-244 | true exactly when the dependency relation has no cycle |
| PipelineValidator.KahnVerdict | src/pipeline/pipeline_builder.cpp:229-243 | the visited count equals the stage count exactly when there is no cycle |
| PipelineValidator.Validate | src/pipeline/pipeline_builder.cpp:71-210 | returns the verdict of the first failing check, in order |
| PipelineValidator.IdVerdictMeans | src/pipeline/pipeline_builder.cpp:90-101 | ids pass exactly when they are unique and not empty |
| PipelineValidator.VersionShape | src/pipeline/pipeline_builder.cpp:77-84 | a version is accepted exactly if it holds digits and a single dot that is at neither end |
| PipelineValidator.TypesMatchExactlyWhen | src/pipeline/pipeline_builder.cpp:246-277 | the type check accepts exactly the dependencies that follow the order of the processing stages |
| PipelineValidator.AcceptedLineProcesses | src/pipeline/pipeline_builder.cpp:195-277 | in an accepted pipeline every line from a camera to an export passes through preprocessing, inference, detection, rules and reasoning in order and once each, with only cameras and custom stages before and only exports after |
| PipelineValidator.EntryAndExitChecksAreDead | src/pipeline/pipeline_builder.cpp:120-144 | the no-entry and no-exit rejections never fire |
| PipelineValidator.AcceptedHasOneConsumer | src/pipeline/pipeline_builder.cpp:177-192 | in an accepted pipeline every stage has at most one consumer |
| PipelineValidator.ExactlyOneChain | src/pipeline/pipeline_builder.cpp:177-192 | in an accepted pipeline every stage starts exactly one chain of consumers, and it ends at an exit |
| PipelineValidator.LinearExactlyWhen | src/pipeline/pipeline_builder.cpp:71-210 | an accepted pipeline is one chain through all stages exactly when a single stage has no dependencies |
| PipelineValidator.FanInIsAccepted | src/pipeline/pipeline_builder.cpp:177-192 | two cameras feeding one stage are accepted, whatever the names, and are not linear |
| PipelineValidator.DisconnectedIsAccepted | src/pipeline/pipeline_builder.cpp:120-192 | two stages without any dependency are accepted and are not linear |
| TaskGraph.Execution.EnsureEach | src/runtime/task_graph.cpp:57-70 | on success every listed node is completed; a failure explains itself |
| TaskGraph.Execution.EnsureCompleted | src/runtime/task_graph.cpp:72-105 | dispatches a node only after all its dependencies succeeded, and nothing after a failure |
| TaskGraph.Graph.RunToCompletion | src/runtime/task_graph.cpp:133-144 | on acyclic graphs: each node at most once, dependencies first, nothing after the first failure, and on success every node exactly once, in any listing order |
| TaskGraph.Graph.AddNode | src/runtime/task_graph.cpp:109-119 | a second node with the same id is refused and changes nothing |
| KnowledgeTraversal.Traverse | src/knowledge/knowledge_graph.cpp:313-382 | the paths of the depth-limited walk with one shared visited set; each holds the targets of all rows with its source and the queried relationship, once per row and in row order |
| KnowledgeTraversal.ReverseTraverse | src/knowledge/knowledge_graph.cpp:384-452 | the same with source and target of every row exchanged |
| KnowledgeTraversal.ExpandIsFresh | src/knowledge/knowledge_graph.cpp:320-382 | no node is expanded twice or again |
| KnowledgeTraversal.ExpandStaysNear | src/knowledge/knowledge_graph.cpp:366-379 | every source is fewer than the depth hops away |
| KnowledgeTraversal.DeepWalkReachesAll | src/knowledge/knowledge_graph.cpp:320-382 | with depth at least the node count the walk visits exactly the reachable nodes |
| KnowledgeTraversal.ShortcutMissesNode | src/knowledge/knowledge_graph.cpp:366-379 | from depth 3 on, a store with one node more than the depth whose results miss a node two hops away |
| KnowledgeTraversal.CompleteExactlyWhen | src/knowledge/knowledge_graph.cpp:320-382 | the results are complete on all stores of at most n nodes exactly for depth at most 2 or at least n |
| KnowledgeTraversal.TraversalMeaning | src/knowledge/knowledge_graph.cpp:313-452 | in both directions: distinct sources within the depth over the rows of the queried relationship, each with the known ends of all its such rows, once per row and in row order, and all reachable ones that have such a row when deep enough |
| KnowledgeTraversal.OtherRelationshipsDoNotMatter | src/knowledge/knowledge_graph.cpp:330-404 | adding or removing a row of another relationship anywhere changes no result, in either direction |
| FeatureCache.FeatureCache.Get | src/embedding/feature_cache.cpp:6-19 | a hit returns the value and moves the entry to the front; a miss changes only the counter |
| FeatureCache.FeatureCache.Put | src/embedding/feature_cache.cpp:21-45 | updates in place, or evicts the last entry and inserts in front; nothing at capacity zero |
| FeatureCache.CacheHoldsMostRecent | src/embedding/feature_cache.cpp:6-45 | after any calls: the most recently touched distinct keys, in order, with their last values, and full if any key was dropped |
| DropAccounting.RingMeaning | include/sai/pipeline/stage_queue.h:38-113 | depth, full and empty of the ring; a push counts a drop exactly when it replaces the oldest item of a full queue |
| DropAccounting.FailedExchangeLosesTheQueue | include/sai/pipeline/stage_queue.h:42-59 | a failed exchange on a full ring empties it without counting |
| DropAccounting.BlockingPushesNeverDrop | include/sai/pipeline/stage_queue.h:152-168 | over every run with blocking pushes only, under any policy and any number of starts, nothing is dropped and the counter stays zero |
| DropAccounting.DropsExactlyWhen | include/sai/pipeline/stage_queue.h:42-59 | some run drops exactly with DropOldest and a push outside the lock |
| DropAccounting.StepKeepsAccount | src/pipeline/pipeline.cpp:236-247 | every step of queue and threads keeps tracker = counted since the start + won but not yet added |
| DropAccounting.Conservation | src/pipeline/pipeline.cpp:208-248 | that equation after any interleaving |
| DropAccounting.AtRestExact | src/pipeline/pipeline.cpp:208-248 | at rest the counter has grown since the start by the largest dropped count read, each drop counted once |
| DropAccounting.SecondStartCountsAgain | src/pipeline/pipeline.cpp:208-212 | after a second start the counter holds what both runs read: exact only if the first saw no drop, as is the case without pushes outside the lock |
| DropAccounting.OneDropCountedTwice | src/pipeline/pipeline.cpp:208-212 | for every capacity a run with pushes outside the lock in which one drop is counted twice |
| WorkerPool.StepKeepsInv | src/runtime/worker_pool.cpp:22-59 | every step keeps each work and wrapper frame with exactly one owner, as far as that owner has got |
| WorkerPool.NeverTwice | src/runtime/pipeline_executor.cpp:65-107 | in any interleaving a frame is resumed and destroyed at most once; an answer is the work's result and comes after its frame is destroyed; only a thread between destroying and signalling leaves destroyed work unanswered |
| WorkerPool.AtRestDestroyedWhenAnswered | src/runtime/pipeline_executor.cpp:65-107 | with no thread inside a wrapper, work is destroyed exactly if it is answered, and all is settled |
| WorkerPool.ShutdownSettlesEverything | src/runtime/worker_pool.cpp:44-59 | with a thread, shutdown leaves the queue empty and every accepted frame resumed exactly once |
| WorkerPool.ActsRunOut | src/runtime/worker_pool.cpp:44-59 | every step of a thread lowers a measure |
| WorkerPool.EveryScheduleEnds | src/runtime/worker_pool.cpp:16-20 | from a closing pool that is not stuck every schedule without new dispatches has at most that many steps, and after each of them the pool is shut down or a thread can go on |
| WorkerPool.UsefulExactlyWhen | src/runtime/worker_pool.cpp:44-59 | while threads are left in a closing pool, one can go on exactly unless all wait for nested dispatches |
| WorkerPool.ShutdownFinishesExactlyWhen | src/runtime/worker_pool.cpp:16-20 | a shutdown that has begun can end exactly when not every remaining thread waits for a nested dispatch |
| WorkerPool.SelfDispatchNeverEnds | src/runtime/pipeline_executor.cpp:77-107 | a single thread whose work dispatches to its own pool is stuck for good |
| WorkerPool.NoThreadNoResume | src/runtime/worker_pool.cpp:8-14 | without threads nothing is resumed |
| WorkerPool.DrainedExactlyWhen | src/runtime/worker_pool.cpp:22-59 | shutdown always drains exactly with a thread or without capacity |

## Left out

- Floating point: rounding, NaN, infinities and overflow; all numbers are exact. `exp` and `sqrt` are parameters; of `sqrt` only s*s = x is used, of `exp` positivity, and where a result says so that it is increasing, turns sums into products, or is one at zero.
- Flat row-major buffers: vectors and matrices are sequences of rows, so index arithmetic on `dim` is not modelled outside the pixel grid.
- Coreset.BuildFromEmbeddings: a maximum of zero is admitted only where an error is returned; otherwise the source divides by it.
- Coreset.BuildWithGreedyCoreset: the coverage statistics, which are computed and discarded.
- PcaScoring.Score: the Mahalanobis and cosine scores.
- The IVF index, GPU search and file formats of the feature bank.
- Expected improvement, L-BFGS, the search for hyperparameters and positive definiteness of the kernel itself.
- DetectionResult.BuildDetectionResult: requires a full patch grid that is empty only together with the image; the source reads out of bounds otherwise.
- RegionStatistics.SortByScore: the library sort is modelled by one arrangement; callers rely only on order and contents.
- CoresetEvolution.Evolution.UpdateCycle: requires a positive profile dimension, by which the source divides. Drain, merge with swap, and validation are three steps between which frames arrive; an offer is one step (one that straddles the swap has the effect of one made just before it), and the bank and its profile change together.
- EvolutionSignals.SaturationReachableExactlyWhen: asks for a profile with samples, 0 < p50 <= p95 and a consensus threshold of at most one.
- CoresetEvolution.Usable: prefilter size and validation sample count are positive, because the source divides by both.
- CoresetEvolution.Evolution.AssessAndOffer: evolution is enabled; otherwise the source does nothing.
- CoresetEvolution.Evolution.constructor: an active bank, when there is one, is not empty and has the profile's dimension.
- CoresetEvolution.Evolution.FullRebuild: no update begins while it lasts and it does not begin during one, against which the source has no guard; draining and the rest are two steps; backups, event records, statistics and the incremental update counter, which nothing reads but a log message.
- The concentration ratio of the normalcy assessment, which no decision reads; how profiles are computed from self-queries (a parameter).
- MemoEvaluation.FactBase.Evaluate: the provenance stored beside every fact; the string hash is a parameter, and absence of collisions is asked for the texts in use only.
- ConditionBuilder.BuildExpression: error messages, and the parsing and printing of numbers (parameters); going on with a null operand is one outcome.
- RuleEngine.EvaluateAll: the parallel tasks, which share nothing but the rules; traces, priorities and hot reload.
- PluginManager.Manager.Load: manifest discovery, the destructor and the real library calls, whose answers are a parameter; type ids are the names.
- PipelineValidator.Validate: YAML parsing and backpressure settings.
- TaskGraph.Graph.RunToCompletion: cyclic graphs, on which the source recurses without end unless a stop request or an earlier failure ends the walk.
- KnowledgeTraversal.Traverse: SQL errors; the queries are read as an edge relation, in the order in which a query yields its rows.
- WorkerPool.NeverTwice: the mutex and condition variable are one atomic step each, the work finishes on its first resume, and nested dispatches go to the same pool.
- DropAccounting.BlockingPushesNeverDrop: the items themselves, memory ordering and the waiting side of the condition variable; TryPush and TryPop are one atomic step each.
- ConditionTexts.BuiltConditionsAreCoherent: a sufficient condition; bare literals in a list of several and multi-word texts are not covered.
- Scheduling, metrics, cameras, inference, calibration, user interface, decision trees and score fusion.
