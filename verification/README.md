# Network traffic analyser: a verified model

This project models the streaming algorithms and the small state machines of a live network
traffic analyser and proves what they promise: error bounds, exact distributions, convergence,
conservation of records, and agreement of fast algorithms with simple ones.

| module | what it models |
|---|---|
| `Dgim` | the DGIM sliding-window counter, its list of buckets, and the loop that compares it with an exact deque |
| `Reservoir` | reservoir sampling (Algorithm R) |
| `Ams` | the Alon-Matias-Szegedy second-moment estimator |
| `Itemsets` | A-Priori, PCY and the brute-force baseline for frequent itemsets |
| `Transitions`, `PageRank`, `Markov` | the transition matrix of a weighted graph, PageRank by power iteration, the stationary distribution |
| `Fm` | the Flajolet-Martin sketch |
| `Decay` | decaying counters and the pruned key table |
| `Capture` | the capture supervisor: reader threads, bounded queue, consumer, restarts |
| `TcpWriter`, `CsvWriter` | the buffering TCP sender and the rotating CSV files |
| `Alerts` | the alert engine: weighted baseline, warm-up, cooldowns |
| `RecordSchema` | printing and parsing of record rows |
| `Options`, `Reals`, `Powers`, `Vectors`, `Elimination`, `Aggregate`, `Counting` | shared vocabulary: options, real products, powers, vectors, solutions of linear systems, sorting and medians, counting of draw sequences |

`dafny verify dfyconfig.toml` checks the whole project.

## Conventions

- Floating-point numbers are exact reals; there is no rounding, neither of the arithmetic nor of
  displayed values.
- Clock readings, results of the random generator, hash functions, the network, the file system
  and the child process are arguments or arbitrary functions. A statement that quantifies over
  them holds for every behaviour of theirs.
- A probability is a count. `Counting.AllDraws` is the set of all sequences the random generator
  can return; they are equally likely, and "with probability a / b" is stated as a number of
  sequences out of that set.
- Where the program iterates over a set or sorts one first, the model takes the elements in any
  order, so the results hold for every order.
- The classes carry ghost fields for the history (the stream so far, the draws so far, the lines
  written so far). They only occur in specifications.
- `2 ** (-dt / half_life)` is the dt-th power of a factor c per tick, with 0 < c <= 1 and dt an
  integer number of ticks.

## Where the code and its documentation differ

Each difference comes with a concrete input on which the documented property fails and with a
theorem that says exactly when it holds.

- The class comment of DGIM promises an error of at most 50% for any bit stream
  (streaming/analytics/dgim.py:45). That fails for one family of queries: when the query window
  overlaps exactly one bucket, which happens exactly when the true count is 1, the estimate is
  `1 // 2 = 0`. `Dgim.AccuracyFailsOnOne` is such a call, `Dgim.Accuracy` proves the bound in all
  other cases and that this is the only exception, and `Dgim.PredicateCounter.Compare` states it
  for the reported percentage.
- The class comment of the decaying key table promises bounded memory
  (streaming/analytics/decay.py:81), but pruning removes only keys below epsilon
  (streaming/analytics/decay.py:109-113). `Decay.DecayingKeyTable.OverLimit` is a table with a
  limit of one key that ends up with two. `Decay.WithinLimit` says when an addition respects
  `max_keys`: if and only if the table does not grow over it, or no more keys than that score at
  least epsilon. `Decay.MemoryBound` is the bound that does hold over whole runs: above
  `max_keys`, epsilon times the number of keys is at most the decayed total of all values added.
- The rules document asks for more than three times the baseline and for 30 warm-up windows
  (docs/TECH_RULES.md:167). The code compares with `>=` and counts the judged window.
  `Alerts.AlertEngine.AlertInThirtiethWindow` is a run in which the thirtieth busy window, at
  exactly three times the baseline, raises an alert;
  `Alerts.AlertEngine.CheckTrafficSpike` has the exact condition.
- A line whose send fails while the TCP writer drains its buffer is gone without being counted in
  `dropped_records` (capture/writers.py:226-234). `TcpWriter.TcpLineWriter.LineLost` is such a
  call. The contracts of `TcpWriter.TcpLineWriter.Write` and `TcpWriter.TcpLineWriter.Flush` say
  when the unexplained loss grows, by one: if and only if the call attempts to connect, the
  attempt succeeds, and the send of one of the buffered lines fails.
- The supervisor announces a final drain of the queue (capture/run_capture.py:274-298), but not
  every return reaches it. A run returns 1, without the drain and without flushing the writer, if
  and only if the child cannot be started (capture/run_capture.py:194-198) or has failed for the
  sixth time (capture/run_capture.py:260-264): `Capture.ReturnsWhen`. Then accepted lines stay
  unhandled exactly if the queue is not empty at that moment: `Capture.HandledAtReturn`.
  `Capture.FailedStartLeavesLine` and `Capture.SixFailuresLeaveLine` are runs of both kinds that
  leave a line behind.

## Model

| member | source | states |
|---|---|---|
| Dgim.DGIM.Create | streaming/analytics/dgim.py:52-57 | Construction fails exactly on a window that is not positive; a new counter has seen nothing. |
| Dgim.DGIM.Update | streaming/analytics/dgim.py:59-77 | Keeps the whole invariant for every bit: each bucket sits on a one inside the window and its size is exactly the ones back to the next older bucket, sizes start at 1 and repeat or double, no three alike. Says how far the list has expired. |
| Dgim.DGIM.MergeBuckets | streaming/analytics/dgim.py:79-98 | From any list at all the cascade ends, although its index steps back; it ends with no three adjacent buckets of one size, keeps total size and newest bucket, never leaves the window, and keeps the exact coverage of the stream and the ladder of sizes when at most one size occurred three times. |
| Dgim.DGIM.Query | streaming/analytics/dgim.py:100-133 | The loop over the buckets computes all overlapping sizes but the oldest plus half of the oldest, for any list. On every counter fed by updates: for 0 < k <= window the answer is within half of the ones among the last k bits, except that a count of 1 is answered with 0; a larger k, or none, means the window; k <= 0 gives 0. |
| Dgim.DGIM.Restore | streaming/analytics/dgim.py:143-150 | Restoring the snapshot of a valid counter gives a valid counter of the same stream, so every bound carries over a restart. |
| Dgim.TrueCount | streaming/analytics/dgim.py:100-133 | The true number of ones in the last k bits lies strictly above the newer buckets' total and at most the oldest overlapping bucket's size above it. |
| Dgim.Accuracy | streaming/analytics/dgim.py:44-46 | For every stream and every 0 < k <= window: the estimate is within half of the true count if and only if the query does not overlap exactly one bucket; that one case is the true count 1, estimated as 0. A count of 0 is estimated exactly. |
| Dgim.AccuracyFailsOnOne | streaming/analytics/dgim.py:129 | A concrete run on which the documented 50% bound fails: a new counter, one set bit, a query that returns 0. |
| Dgim.EstimateMonotone | streaming/analytics/dgim.py:120-133 | A longer query window never lowers the estimate, and no estimate is negative. |
| Dgim.EstimateFromStream | streaming/analytics/dgim.py:104-105 | The estimate in terms of the stream: the ones newer than the oldest overlapping bucket, plus half of the ones between it and the next older edge. |
| Dgim.BucketCount | streaming/analytics/dgim.py:46 | At most 2 * (floor(log2 window) + 1) buckets exist at any time. |
| Dgim.FloorLog2Is | streaming/analytics/dgim.py:46 | The logarithm in that bound is the binary one, rounded down. |
| Dgim.Structure | streaming/analytics/dgim.py:79-84 | In every reachable list sizes are powers of two that do not decrease with age, and no size occurs three times. |
| Dgim.PowerPresent | streaming/analytics/dgim.py:79-84 | No power of two is missing: each one up to a bucket's size is the size of some bucket no older than it. |
| Dgim.Canonical | streaming/analytics/dgim.py:66-98 | The stream and the last expired position determine the bucket list completely: an independent characterization of what any sequence of updates leaves behind. |
| Dgim.PredicateCounter.Feed | streaming/analytics/dgim.py:276-282 | Feeding a batch keeps the deque equal to the last window of the very stream the DGIM counter has seen. |
| Dgim.PredicateCounter.Compare | streaming/analytics/dgim.py:288-291 | The reported exact count is the true one, the estimate is that of the query over the whole window, and the percentage is their distance relative to the exact count; it is at most 50% exactly when that count is not 1, and 100% when it is. |
| Reservoir.ReservoirSampler.Create | streaming/analytics/sampling.py:34-41 | Construction fails exactly on a size that is not positive. |
| Reservoir.ReservoirSampler.Add | streaming/analytics/sampling.py:43-60 | In every run the reservoir holds min(k, n) items from distinct stream positions, and the slots are the function `Slots` of the draws; the result says whether the new item is in. |
| Reservoir.ReservoirSampler.Reset | streaming/analytics/sampling.py:66-70 | Back to an empty stream with the same size. |
| Counting.AllDrawsCard | streaming/analytics/sampling.py:55 | The generator has (k + m)! / k! equally likely outcomes over k + m items, and n! in the case of the second-moment estimator. |
| Reservoir.EachPositionUniform | streaming/analytics/sampling.py:28-32 | Exactly uniform per position: of all draw sequences for n = k + m items, the fraction k / n leaves position p in the reservoir, for every p. |
| Reservoir.EverySampleUniform | streaming/analytics/sampling.py:28-32 | Exactly uniform per sample: every k-element set of the k + m positions is the sample of exactly m! draw sequences. |
| Ams.F2Step | streaming/analytics/moments.py:34-38 | One more occurrence of an item raises the second moment of the frequency counter by 2r - 1, with r its new count. |
| Ams.AMSF2.Create | streaming/analytics/moments.py:98-118 | Construction fails exactly on a number of estimators that is not positive. |
| Ams.AMSF2.Add | streaming/analytics/moments.py:120-133 | For every sequence of draws: each estimator tracks the stream item at its chosen position and its counter is the number of occurrences from there on. |
| Ams.AMSF2.AddMany | streaming/analytics/moments.py:135-138 | Adding a list keeps the relation for all estimators and appends the list to the stream and, for each estimator, its column of the drawn rows to its draws. |
| Ams.TracksStep | streaming/analytics/moments.py:125-133 | One draw: the two branches (restart, count) and the silent one keep the relation between an estimator and its stream. |
| Ams.AMSF2.Estimate | streaming/analytics/moments.py:140-172 | The single values, n(2r - 1) of each estimator's draws, are cut into slices of equal size but the last; the result is the middle one of the slice means, or half of the sum of the two middle ones, by rank; it is 0 for no items, at least n otherwise, and at most n(2f - 1) for every bound f on the frequencies. |
| Ams.GroupsPartition | streaming/analytics/moments.py:154-163 | The groups, the last one taking the remainder, hold every estimator exactly once. |
| Ams.SlicesAre | streaming/analytics/moments.py:154-163 | The slices joined are all values, each but the last has n // groups of them, and mean times size is the sum. |
| Ams.MeansInRange | streaming/analytics/moments.py:154-172 | Median and means never leave the range n .. n(2f - 1) of the single values. |
| Ams.FinalPositionUniform | streaming/analytics/moments.py:126-131 | Each of the n positions is an estimator's final choice in exactly (n - 1)! of the n! draw sequences. |
| Ams.MeanOverPositions | streaming/analytics/moments.py:90-93 | Over all positions the values n(2r - 1) add up to n times the exact second moment of the stream. |
| Ams.Unbiased | streaming/analytics/moments.py:34-38 | Exactly unbiased: over all n! draw sequences the values of one estimator add up to n! times the exact second moment of the frequency counter. |
| Ams.AMSF2.Restore | streaming/analytics/moments.py:189-196 | Restoring the snapshot of a valid estimator gives a valid estimator of the same stream and draws. |
| Itemsets.Apriori | streaming/analytics/itemsets.py:153-207 | Delivers exactly the itemsets of size one, and two if allowed, with at least the threshold of baskets, each with its exact support; passes and candidates as reported. |
| Itemsets.Pcy | streaming/analytics/itemsets.py:210-279 | Delivers the same for every hash function and every number of buckets, counting only pairs of frequent items in frequent buckets. |
| Itemsets.BruteForce | streaming/analytics/itemsets.py:282-305 | Delivers the same by counting every subset. |
| Itemsets.AllAgree | streaming/analytics/itemsets.py:153-305 | On all baskets, thresholds, sizes, hashes and bucket numbers the three maps are equal, and PCY counts at most the candidates of A-Priori. |
| Itemsets.MinesUnique | streaming/analytics/itemsets.py:153-305 | The specification has one solution, so meeting it is agreeing. |
| Itemsets.SupportAntitone | streaming/analytics/itemsets.py:186-190 | A superset occurs in no more baskets, the reason why candidates may be built from frequent items. |
| Itemsets.CombinationsExact | streaming/analytics/itemsets.py:198 | Combining the elements of a basket gives every two-element subset exactly once. |
| Itemsets.HashPairSymmetric | streaming/analytics/itemsets.py:146-150 | A pair has one bucket in whichever order its items come. |
| Itemsets.HashPairIs | streaming/analytics/itemsets.py:148-150 | The bucket of a pair is the hash of its items in string order, modulo the number of buckets. |
| Itemsets.CountBuckets | streaming/analytics/itemsets.py:228-237 | Each counter is the number of pair occurrences that fall into its bucket. |
| Itemsets.BucketCoversPair | streaming/analytics/itemsets.py:234-237 | Collisions only add: a bucket's counter is at least the support of every pair in it. |
| Itemsets.PcyKeepsFrequent | streaming/analytics/itemsets.py:250-261 | The bitmap never prunes a frequent pair, for any hash. |
| Itemsets.PcyPrunes | streaming/analytics/itemsets.py:253-261 | The candidates of PCY are candidates of A-Priori. |
| Transitions.BuildMatrix | linkanalysis/pagerank.py:66-82 | Filling edge by edge and patching dangling rows gives the transition matrix, whether shares are stored or accumulated, and whatever the signs of the weights. |
| Transitions.NormalizeRows | linkanalysis/markov.py:16-34 | In place: exactly the rows that sum to zero become uniform, every other row stays. |
| Transitions.TransitionStochastic | linkanalysis/markov.py:41-50 | Every row is nonnegative and sums to 1, at dangling nodes too. |
| PageRank.Contraction | linkanalysis/pagerank.py:98 | One iteration brings any two vectors closer in L1 by the factor alpha. |
| Vectors.UnitRow | linkanalysis/pagerank.py:98 | Multiplying the unit vector of a node by the matrix gives the row of that node. |
| Vectors.VecMatAdd | linkanalysis/pagerank.py:98 | The product is additive in the vector. |
| Vectors.VecMatScale | linkanalysis/pagerank.py:98 | The product is homogeneous in the vector; with the two rows above this determines it. |
| Vectors.ProductArrives | linkanalysis/markov.py:180 | Entry j of the product is x[0] * m[0][j] + ... + x[n - 1] * m[n - 1][j]. |
| Vectors.DistIsTravel | linkanalysis/markov.py:181 | The distance of two vectors is the sum of the absolute differences of their entries. |
| PageRank.GapShrinks | linkanalysis/pagerank.py:96-102 | Successive L1 differences shrink at least by the factor alpha each time. |
| PageRank.GapBound | linkanalysis/pagerank.py:96-102 | The t-th difference is at most 2 * alpha^t on every graph. |
| PageRank.DefaultsConverge | linkanalysis/pagerank.py:11-14 | With alpha 0.85, 100 iterations and tolerance 1e-6 that bound drops below the tolerance in time. |
| PageRank.JumpProbability | linkanalysis/pagerank.py:84-93 | Without negative preferences the jump vector is a probability vector. |
| PageRank.JumpIs | linkanalysis/pagerank.py:84-93 | The jump vector has equal shares without preferences or without a positive total; otherwise each entry is the preference's share of the total. |
| PageRank.PowerIteration | linkanalysis/pagerank.py:37-104 | Node by node, for any parameters and weights of any sign: starting from equal shares, each step gives y[j] = alpha * (sum over i of x[i] * m[i][j]) + (1 - alpha) * p[j]; it returns the first vector that differs from its predecessor by less than tol in total, or the one after maxIter steps. |
| PageRank.PageRankDefaults | linkanalysis/pagerank.py:37-104 | With the default constants the loop leaves by the tolerance test within 100 steps on every positively weighted graph; the one solution of x[j] = 0.85 * (sum over i of x[i] * m[i][j]) + 0.15 * p[j] exists, it is a probability vector, and so is the result, which is within 0.85 / 0.15 * 1e-6 of it in total. |
| PageRank.FixedExists | linkanalysis/pagerank.py:95-102 | The iteration has a fixed point for every stochastic matrix, every jump vector and every alpha below 1; it is a probability vector if the jump vector is one. |
| PageRank.FixedUnique | linkanalysis/pagerank.py:95-102 | There is at most one fixed point. |
| PageRank.StopsNearFixed | linkanalysis/pagerank.py:99-101 | Stopping by the test leaves the result within alpha / (1 - alpha) * tol of the fixed point, which exists and is the only one. |
| PageRank.StopsForGood | linkanalysis/pagerank.py:99-101 | No number of further iterations would move the result by more than that. |
| Elimination.Solution | linkanalysis/pagerank.py:98 | The equation behind one iteration, x = xA + b with nonnegative rows that sum to less than 1, always has a solution, a nonnegative one for a nonnegative b. |
| Markov.BuildMarkovMatrix | linkanalysis/markov.py:37-74 | Each entry is the share of the weight, uniform at dangling nodes; the matrix is row-stochastic on every positively weighted graph. |
| Markov.StationaryDistribution | linkanalysis/markov.py:154-189 | A result is what one step of the walk makes of a vector that it moves by less than tol in total, and the first such one; on a positively weighted graph it is a probability vector, and at every node j the sum over i of r[i] * m[i][j] differs from r[j] by less than tol. Without a result no allowed step came below tol; an empty graph gives none. |
| Markov.ResidualShrinks | linkanalysis/markov.py:179-184 | The residual never grows from one step to the next. |
| Fm.CountTrailingZeros | streaming/analytics/fm.py:35-43 | The shift loop finds the index of the lowest set bit, 64 for zero. |
| Fm.FirstZeroBit | streaming/analytics/fm.py:107-112 | The mask loop finds the least index whose bit is not set, and ends by index 64. |
| Fm.FirstZeroMonotone | streaming/analytics/fm.py:107-112 | More set bits never lower the first zero. |
| Fm.FlajoletMartin.Create | streaming/analytics/fm.py:73-95 | Construction fails exactly on counts that are not positive or do not divide. |
| Fm.FlajoletMartin.Add | streaming/analytics/fm.py:97-105 | Every bitmap holds exactly the bits of the set of items observed under its salt. |
| Fm.FlajoletMartin.Estimate | streaming/analytics/fm.py:114-138 | With r the first zero of each bitmap, each group of neighbouring bitmaps has the estimate pow(mean of its r) / 0.77351, and the result is the middle one of these, or half of the sum of the two middle ones, by rank; 0 before the first item. |
| Fm.SketchMeaning | streaming/analytics/fm.py:124-138 | The formula of the estimate has this meaning on all bitmaps. |
| Fm.SketchOfSet | streaming/analytics/fm.py:57-66 | Two sketches of the same set are equal: order and repetition of items do not matter. |
| Fm.UnionRepresents | streaming/analytics/fm.py:103-104 | The bitwise or of two bitmaps is the bitmap of the union of their items. |
| Fm.MoreItems | streaming/analytics/fm.py:114-138 | More items never lower the estimate, through first zero, group mean, power and median. |
| Aggregate.SortCorrect | streaming/analytics/fm.py:134 | Sorting the group values gives an ordered rearrangement. |
| Aggregate.MedianMonotone | streaming/analytics/fm.py:134-138 | Raising group values never lowers the median. |
| Aggregate.MedianMiddle | streaming/analytics/moments.py:168-172 | The median of an odd number of values is one of them, with at most half of the others on either side; of an even number it is half of the sum of the two values whose ranks are in the middle. |
| Aggregate.RankUnique | streaming/analytics/moments.py:168-172 | Only one value has a given rank, so that the middle is determined. |
| Aggregate.MedianOfHalves | streaming/analytics/fm.py:136-138 | However the values are split into a low and a high half of equal size, the median is half of the greatest low plus the least high value. |
| Aggregate.SumConcat | streaming/analytics/fm.py:130 | The sum of a joined list is the sum of the sums. |
| Aggregate.SumSingle | streaming/analytics/fm.py:130 | The sum of a single value is the value, and of none 0. |
| Aggregate.MeanIs | streaming/analytics/fm.py:130 | The mean times the number of values is their sum. |
| Decay.DecayingCounter.Add | streaming/analytics/decay.py:39-53 | After every addition the score is the closed form of all events the counter was fed, in any order of their times. |
| Decay.DecayingCounter.Value | streaming/analytics/decay.py:55-63 | A reading is the closed form of all events so far; for events in time order it is the documented decayed sum. |
| Decay.FoldIsClosedForm | streaming/analytics/decay.py:39-53 | After any events in any order the lazy score is the sum of the values, each decayed from the latest time known when it was counted. |
| Decay.ValueIsClosedForm | streaming/analytics/decay.py:55-63 | Reading at any time t gives that sum at t, or at the last event's time if t is before it. |
| Decay.InOrderIsEager | streaming/analytics/decay.py:26-30 | For events in time order the sum is the documented one: each value decayed from its own time. |
| Decay.DecayingKeyTable.Add | streaming/analytics/decay.py:95-101 | The table is what all its operations so far make of an empty one; it changes at this key only, then is pruned if it has too many keys; no two keys share a counter. Says exactly when the limit is respected, and the bound that holds otherwise. |
| Decay.DecayingKeyTable.Prune | streaming/analytics/decay.py:109-113 | Exactly the keys whose decayed score is below epsilon go. |
| Decay.DecayingKeyTable.TopK | streaming/analytics/decay.py:103-107 | Different keys with their scores, highest first, and no other key scores more; for regular runs each reported score is at most the documented sum over all events of its key and falls short by at most epsilon for each time the key was pruned. It is exactly that sum as long as no more keys occurred than the limit allows. |
| Decay.DecayingKeyTable.OverLimit | streaming/analytics/decay.py:100-113 | A concrete run after which a table with a limit of one key holds two. |
| Decay.WithinLimit | streaming/analytics/decay.py:100-113 | An addition respects the limit if and only if the table does not grow over it or no more keys than the limit score at least epsilon. |
| Decay.NeverPruned | streaming/analytics/decay.py:100-101 | A run of additions with no more keys than the limit never prunes: its table is the unpruned one. |
| Decay.ExactScores | streaming/analytics/decay.py:95-101 | In such a run with events in order every score is exactly the documented sum over the events of its key. |
| Decay.MemoryBound | streaming/analytics/decay.py:78-82 | Over every run with nonnegative values in time order: after each operation the table respects its limit, or epsilon times its number of keys is at most the decayed total of all values added. |
| Decay.FullScore | streaming/analytics/decay.py:95-98 | Without pruning, a key's score is the documented sum over exactly its own events. |
| Decay.FullIsFold | streaming/analytics/decay.py:95-98 | Without pruning, a key's counter is the fold of exactly its own events. |
| Decay.PruningCost | streaming/analytics/decay.py:95-113 | Over every run with nonnegative values in time order, at any time, a key never scores more than without pruning and falls short by at most epsilon for each time it was pruned. |
| Capture.Invariant | capture/run_capture.py:167-300 | The invariant holds in every state of every interleaving of readers, consumer, signals and child. |
| Capture.Conservation | capture/run_capture.py:82-86 | At any moment: put attempts = frames seen + queued + dropped + at most one line in hand, and frames seen = written + rejected + at most one line being handled. |
| Capture.PutStep | capture/run_capture.py:173-176 | A put drops its line if and only if the queue then holds its maximal number of lines; otherwise the line becomes the last one queued and accepted. |
| Capture.DropsAreFullQueues | capture/run_capture.py:173-176 | In every run exactly the puts that met a full queue have dropped their line. |
| Capture.DropNeedsFullQueue | capture/run_capture.py:173-176 | A run with a dropped line was in a state with a full queue before. |
| Capture.NoDropBelowSize | capture/run_capture.py:76-85 | A run that has not put more lines than the queue can hold has dropped none. |
| Capture.AtRest | capture/run_capture.py:207-300 | After a return the counters add up exactly; after an exception of the writer exactly one seen line is neither written nor rejected. |
| Capture.ReturnsWhen | capture/run_capture.py:193-300 | In every run: a return with 0 is the end of a final drain that found the queue empty; a return with 1 is a failed start or the sixth failure, and these return nothing else. |
| Capture.HandledAtReturn | capture/run_capture.py:193-300 | A return has handled every accepted line if and only if the queue is empty at that moment, which a return with 0 guarantees. |
| Capture.FailedStartLeavesLine | capture/run_capture.py:194-198 | For every parser and queue size, a run that returns 1 on a failed start and leaves a line unhandled. |
| Capture.SixFailuresLeaveLine | capture/run_capture.py:260-264 | For every parser and queue size, a run that returns 1 on the sixth failure and leaves a line unhandled. |
| Capture.InOrder | capture/run_capture.py:170-176 | Lines are handled in the order in which the queue accepted them, each once; the output is exactly the records among them and every reject counter is exact. |
| Capture.RestartBudget | capture/run_capture.py:182-272 | A run starts the child at most 6 times and sleeps at most 31 seconds; code 1 only after a failed start or the sixth failure. |
| Capture.PausesDouble | capture/run_capture.py:183-272 | After n restarts the supervisor has slept 2^n - 1 seconds, up to 31. |
| Capture.RestartsAreFailures | capture/run_capture.py:253-272 | Only a child that exits with a code other than 0 before any stop is restarted; a code of 0 leads to the final drain. |
| Capture.StopIsFinal | capture/run_capture.py:186-193 | A stop stays set, and no child is started after it. |
| Capture.ConsumerTakes | capture/run_capture.py:208-212 | While it is not stopped the consumer takes the oldest queued line at once. |
| Capture.ChecksDecide | capture/run_capture.py:229-235 | The end of the duration, then the exit of the child, is noticed at the next check. |
| Capture.ExitDrains | capture/run_capture.py:235-250 | The lines of a child that has exited are all taken before its exit code is handled. |
| Capture.DiscardsAreStops | capture/run_capture.py:170-172 | A reader gives up a line only after a stop. |
| Capture.ShutdownCompletes | capture/run_capture.py:274-300 | Once the stop is set, the main thread returns 0 within a bound that the state determines, whatever the child does, and has handled every accepted line, if the readers are quiet and the writer works. |
| TcpWriter.TcpLineWriter.EnsureConnected | capture/writers.py:211-237 | Against any network: when an attempt is made, what is sent, kept and lost, and the next pause, for each outcome of the connection and of each send. |
| TcpWriter.TcpLineWriter.Write | capture/writers.py:239-255 | The complete effect of a write, for every network: all buffered lines and the new one sent, or a prefix sent and the rest buffered, with the next pause; with the invariant that a connection means an empty buffer, that written = sent + buffered + dropped + lost with an aborted drain, and that sent followed by buffer is a subsequence of the written lines. Says exactly when a line gets lost without being counted. |
| TcpWriter.TcpLineWriter.Flush | capture/writers.py:257-266 | For every network: the buffer is emptied, or sent up to the first failing send, whose line is lost, or untouched; ends connected exactly if it was or the whole buffer could be sent; says exactly when a line gets lost. |
| TcpWriter.TcpLineWriter.Close | capture/writers.py:268-275 | Does to the buffer what a flush does, then ends without a connection; what was not sent stays buffered and accounted for. |
| TcpWriter.TcpLineWriter.LineLost | capture/writers.py:226-234 | A concrete run after which the one written line is not sent, not buffered and not counted as dropped. |
| TcpWriter.PauseIs | capture/writers.py:205-236 | After n refused attempts in a row the pause is half a second times 2^n, up to eight seconds. |
| TcpWriter.RefusedAttempts | capture/writers.py:211-237 | A run of n refused attempts ends with exactly that pause and touches no line. |
| TcpWriter.SubsequenceRemove | capture/writers.py:251-255 | Leaving out the oldest buffered line, by a full buffer or a failed send, keeps the order of writing. |
| CsvWriter.CsvRotatingWriter.Write | capture/writers.py:133-147 | For every clock: the created files in the order of creation hold exactly the rows written; no earlier or foreign file changes; each file is nonempty and was under size and age limit before each row after its first. A write creates a file if and only if none is open or the open one has reached its age or size limit; over whole runs every file but the last had reached one when its successor was created, or had been closed. |
| CsvWriter.CsvRotatingWriter.Append | capture/writers.py:141-143 | The row goes to the end of the newest file, and nothing else changes. |
| CsvWriter.CsvRotatingWriter.OpenNewFile | capture/writers.py:105-119 | The new file is empty, has a free name that starts with traffic_ and the time stamp and ends in .csv, and starts at the clock reading; every other file stays. |
| CsvWriter.CsvRotatingWriter.Close | capture/writers.py:154-155 | Keeps the invariant and leaves no file open. |
| CsvWriter.CsvRotatingWriter.FreeName | capture/writers.py:105-113 | The name search ends, with the first candidate that does not exist. |
| CsvWriter.CandidatesDiffer | capture/writers.py:107-113 | No two candidates are the same name. |
| CsvWriter.TakenNames | capture/writers.py:110-113 | A directory of finitely many files cannot hold all candidates, so the search ends. |
| CsvWriter.WithinLimitsAppend | capture/writers.py:89-98 | A row added below both limits keeps the file's history within them. |
| CsvWriter.StoredNew | capture/writers.py:105-119 | A file under a free name leaves every existing file as it was. |
| CsvWriter.StoredAppend | capture/writers.py:133-147 | A row in the newest file leaves every other file as it was. |
| Alerts.AlertEngine.CheckTrafficSpike | linkanalysis/alerts.py:184-267 | An alert comes exactly when the window is busy, enough busy windows came before, the rate reaches a threshold over the weighted mean of exactly those earlier windows, and no cooldown runs; with its severity, threshold, baseline and change. The baseline learns exactly the busy windows. |
| Alerts.AlertEngine.CheckCount | linkanalysis/alerts.py:269-331 | A counting alert comes exactly when the count is over its limit, the source is not cooling down for this type and the limit is not 0; a due alert over a limit of 0 raises and records nothing. |
| Alerts.AlertEngine.CheckSource | linkanalysis/alerts.py:163-180 | Both rules for one source: every alert justified, logged and out of its cooldown at the last reading, every due one raised, and no key of another source touched. |
| Alerts.AlertEngine.CheckSources | linkanalysis/alerts.py:157-180 | The same for all sources of a window, in any order. |
| Alerts.AlertEngine.EvaluateWindow | linkanalysis/alerts.py:150-182 | Over whole runs: alerts of one type and source are at least the cooldown apart, and no spike alert comes before max(1, warm-up - 1) busy windows. A source of the window with no packet count or at least min_window_packets gets an alert for each count over its limit, unless one was issued less than the cooldown before the first reading; no other source gets one, and no key that had one less than the cooldown before the last reading. Raises only over a limit of 0. |
| Alerts.AlertEngine.InCooldown | linkanalysis/alerts.py:333-338 | Tells exactly whether the recorded time of the key is less than the cooldown before the reading. |
| Alerts.CoolingIsRecent | linkanalysis/alerts.py:333-338 | A key is cooling down if and only if one of its alerts was issued less than the cooldown ago. |
| Alerts.AlertEngine.TakeSnapshot | linkanalysis/alerts.py:344-350 | The snapshot has baseline, count and, for exactly the recorded keys, type, bar and source as a text with the recorded time. |
| Alerts.AlertEngine.SetCooldown | linkanalysis/alerts.py:340-342 | Records the alert at a reading that is later than the one it was judged by, and keeps all alerts of a key the cooldown apart. |
| Alerts.AlertEngine.AlertInThirtiethWindow | linkanalysis/alerts.py:205-222 | A concrete run with the default rules that alerts after 29 busy windows and at exactly three times the baseline. |
| Alerts.AlertEngine.FromSnapshot | linkanalysis/alerts.py:352-362 | An engine restored on a clock that has moved on has the same baseline, count and cooldowns; under the same learning rule and a cooldown that is not longer, the invariant over the whole history, and with it the distances between alerts, carries over the restart. |
| Alerts.FireKeeps | linkanalysis/alerts.py:333-342 | Judging with one clock reading and recording a later one keeps all alerts of a key the cooldown apart. |
| Alerts.EwmaBounds | linkanalysis/alerts.py:230-233 | The baseline stays between the least and the greatest rate it was built from. |
| Alerts.EwmaIsWeightedSum | linkanalysis/alerts.py:230-233 | The baseline is the weighted sum of the rates of all busy windows. |
| Alerts.WeightIs | linkanalysis/alerts.py:230-233 | The weights are geometric: alpha * (1 - alpha)^age, and (1 - alpha)^age for the first rate. |
| Alerts.SaveLoad | linkanalysis/alerts.py:344-362 | Saving cooldowns as text keys and splitting them at the first bar loses nothing, even for sources that contain bars. |
| RecordSchema.FormatRow | contracts/record_schema.py:107-124 | The loop joins the texts with commas, nulls as empty texts. |
| RecordSchema.PrintParsed | contracts/record_schema.py:96-124 | Printing a parsed line gives the line without its trailing CR and LF, for every line. |
| RecordSchema.ReadBack | contracts/record_schema.py:96-124 | Parsing the text of a printable row gives the row. |
| RecordSchema.ParsedPrintable | contracts/record_schema.py:96-104 | Parsing yields printable rows only. |
| RecordSchema.RoundTripExactly | contracts/record_schema.py:96-124 | A row is read back from its text if and only if it has a field, no empty text, no comma in a text, and does not end in a line break. |
| RecordSchema.LineEnds | contracts/record_schema.py:100-102 | LF, CR or both at the end of a line make no difference to its fields. |
| RecordSchema.OtherEnds | contracts/record_schema.py:100-102 | No other character is stripped. |
| RecordSchema.FieldCount | contracts/record_schema.py:103-104 | A line has one field more than it has commas. |

## Left out

- Rounding: IEEE arithmetic and the rounding of reported numbers to one or two decimals.
- Markov.StationaryDistribution: does not claim convergence, because a periodic chain need not converge.
- PageRank.PowerIteration: graphs with parallel edges, which the graph class cannot hold, and nodes whose out-weights sum to zero, where the program divides by zero, are excluded. Node names are positions.
- PageRank.PageRankDefaults: convergence is stated without negative weights and preferences; with them the rows are no probabilities, and `PageRank.PowerIteration` says what is returned.
- Fm.FlajoletMartin.Estimate: the power of two of a real exponent is an arbitrary function; `Fm.MoreItems` needs only that it is nonnegative and monotone.
- Decay.DecayingCounter.Add: times are integer ticks, and the rejection of a half-life that is not positive is left out.
- Ams.AMSF2.Restore: the state of the random generator in snapshots is not modelled; draws after a restore are arbitrary, like all draws. The same holds for the reservoir.
- Capture.Invariant: a step is one action of one thread and a counter update is one step; thread scheduling inside such an action, the 0.1 second wait, statistics output and the flush and close of the writer are not modelled. Reader and main thread share state, so the supervisor is a transition function and not a class.
- CsvWriter.CsvRotatingWriter.Write: buffering and flush times are not modelled, the directory is changed by this writer only, and the date in a name is an arbitrary function of the clock reading.
- Alerts.AlertEngine.CheckCount: the identifier, texts and JSON details of an alert are left out, as is the alternative calling convention of `evaluate_window` with a dictionary as third argument.
- Alerts.AlertEngine.FromSnapshot: a restart with other learning rules or a longer cooldown keeps the state but not the claims about the history, which were made under the old rules.
- Dgim.PredicateCounter.Feed: one predicate at a time; the evaluation of predicates, the cap on rows and the database are not part of this model.
- `make_baskets`, `RollingBasketBuffer`, `markov_next_hop`, the heatmap and `validate_row` are left out: they would add easy members only.
- Snapshots of the Flajolet-Martin sketch and of the decaying counters copy their fields; they are left out.
- Concentration bounds of the estimators (variance, epsilon and delta) are left out.
- The Spark adapters, SQLite, configuration, TShark command line, other writers, dashboard, HDFS and Flume scripts are not part of this model.
