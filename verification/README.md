# Asynchronous Bayesian calibration scheduler — a Dafny model

This project models the core of a traffic-simulation calibration tool. A
Bayesian optimizer proposes car-following parameters. A pool of worker
processes runs a simulation for each proposal and scores it by the KL
divergence between simulated and observed trajectory distributions. A
result-handler thread feeds each score back to the optimizer and issues the
next proposal. It stops issuing once a task budget is spent.

The model is made of seven modules:

- `Canonical` (`canonical.dfy`)
  - `round_dic_data`: exact round-half-even on reals, to a grid of `10^-digits`.
  - `params_to_tuple`: an insertion sort of a dictionary's items under Python's tuple order.
  - The lemmas that make the sorted tuple a faithful identity for a dictionary.
- `TextOrder` (`text_order.dfy`): Python's string comparison, lexicographic by code point. It is a strict total order.
- `Worker` (`worker.dfy`): one turn of `execute_task`, and the worker loop over the tasks it takes.
  - The simulation is an input: the list of divergences it returned, or nothing when it failed.
- `Scheduler` (`scheduler.dfy`): the result handler as a pure state machine.
  - The state holds the issued fingerprint set, the task counter, the done flag, everything put on the task queue, and the log of optimizer calls.
  - The optimizer is a stream of suggestions.
  - Also covered: the handler loop, the seeding loop of the driver, and the invariant the handler keeps.
- `Divergence` (`divergence.dfy`): the control structure of `cal_kl_divergence`.
  - Which (vehicle type, variable) pairs produce an entry, in which order, and when an entry is infinite.
  - The divergence of two overlapping curves is a parameter.
- `Trajectories` (`trajectories.dfy`): `filter_and_classify` on a table of rows, and `iqr_filter` with the two quantiles given.
- `Wrappers` (`wrappers.dfy`): `Option` and `Result`.

Behaviour of the code that the model keeps, including where it is surprising:

- A failed evaluation pushes no result at all: `execute_task` puts a result on the result queue only when `task_function` returned a list (`bayesian_optimize.py:34-37`).
- The initial suggestions are not rounded, not fingerprinted and not counted (`bayesian_optimize.py:114-117`). `Scheduler.SeedMayRepeat` shows a seed being issued again by the handler.
- The retry on a duplicate suggestion is unbounded (`bayesian_optimize.py:65-77`). The model's finite suggestion stream running out while every suggestion is a duplicate is the `Stalled` step, which stands for `result_handler` spinning forever.
- On normal completion the done flag is set only by `result_handler`, in the `else` of its inner loop, when it processes the next result after the budget was reached (`Scheduler.FlagOnNextResult`); the driver sets it only on `KeyboardInterrupt` (`bayesian_optimize.py:151-152`), which is not modelled.

## Model

| member | source | states |
|---|---|---|
| Canonical.Round | src/util.py:11 | `round(v, digits)` lands on the grid of `10^-digits` at the grid point nearest to `v`; a tie goes to the even step count |
| Canonical.RoundsToUnique | src/util.py:11 | rounding has exactly one possible answer for each value |
| Canonical.RoundIdempotent | src/util.py:11 | rounding an already rounded value returns it unchanged |
| Canonical.RoundDict | src/util.py:10-11 | `round_dic_data` keeps every key in its place and rounds each value to the grid |
| Canonical.RoundDictMap | src/util.py:10-11 | read as a mapping, the rounded dictionary has the same key set and maps each key to the rounded original value |
| Canonical.RoundDictDistinctKeys | src/util.py:11 | the comprehension builds a well-formed dictionary: keys stay pairwise distinct |
| Canonical.RoundDictIdempotent | src/util.py:10-11 | rounding a dictionary twice is the same as rounding it once |
| Canonical.RoundDictFixes | src/util.py:10-11 | `round_dic_data` leaves a dictionary unchanged exactly when all its values are already on the grid |
| Canonical.DictEqualIff | src/util.py:14-15 | two dictionaries are equal as mappings exactly when their item collections are equal |
| TextOrder.LessIrreflexive | src/util.py:15 | no string sorts before itself |
| TextOrder.LessAsymmetric | src/util.py:15 | string order never holds both ways |
| TextOrder.LessTransitive | src/util.py:15 | string order is transitive |
| TextOrder.LessTotal | src/util.py:15 | any two different strings are ordered one way or the other |
| Canonical.ItemLeTotal | src/util.py:15 | any two items are comparable under tuple order |
| Canonical.ItemLeAntisymmetric | src/util.py:15 | items that sort both ways are equal |
| Canonical.ItemLeTransitive | src/util.py:15 | tuple order on items is transitive |
| Canonical.InsertCounts | src/util.py:15 | one insertion step adds exactly the inserted item and loses nothing |
| Canonical.InsertSorts | src/util.py:15 | one insertion step keeps a sorted list sorted |
| Canonical.FingerprintSorts | src/util.py:14-15 | `params_to_tuple` yields a sorted rearrangement of the dictionary's items |
| Canonical.SortedUnique | src/util.py:15 | a collection of items has only one sorted arrangement |
| Canonical.FingerprintEqualIff | src/util.py:14-15 | two fingerprints agree exactly when the item collections agree: insertion order is forgotten and nothing else is |
| Canonical.FingerprintIdentity | src/util.py:14-15 | for dictionaries, equal fingerprints means equal mappings, and conversely |
| Canonical.FingerprintKeysAscending | src/util.py:14-15 | the fingerprint lists each key-value pair of the dictionary once, with keys strictly ascending |
| Divergence.Min | src/process_data.py:39 | `.min()` of a nonempty array is one of its elements and below all of them |
| Divergence.Low | src/process_data.py:39 | `min_range` is the larger of the two minimums |
| Divergence.High | src/process_data.py:40 | `max_range` is the smaller of the two maximums |
| Divergence.OverlapIff | src/process_data.py:42 | the guard `min_range < max_range` holds exactly when two distinct points lie inside both sampled ranges |
| Divergence.Max | src/process_data.py:40 | `.max()` of a nonempty array is one of its elements and above all of them |
| Divergence.Entry | src/process_data.py:31-57 | one pair's entry raises exactly when either curve is empty, or when the ranges overlap and a curve's x and y arrays differ in length (`np.interp`); otherwise it is `inf` when the two sampled ranges do not overlap, and the entropy over the common range `[max of mins, min of maxes]` when they do |
| Divergence.CalKlDivergence | src/process_data.py:23-59 | the nested loops compute the walk over the (vehicle type, variable) pairs in vehicle-type-major order |
| Divergence.PresentPairs | src/process_data.py:30 | a pair is kept exactly when it is walked and its cache key is in both caches |
| Divergence.PresentPairsAppend | src/process_data.py:27-30 | skipping absent keys commutes with concatenating walks, so kept pairs stay in walk order |
| Divergence.KlOverEntries | src/process_data.py:27-57 | a successful list has one entry per present pair, in order, and each entry is that pair's divergence |
| Divergence.KlOverFailsIff | src/process_data.py:30-47 | the computation raises exactly when some present pair has an empty curve, or overlapping ranges with a curve whose x and y arrays differ in length |
| Divergence.KlEntryAt | src/process_data.py:39-57 | entry i belongs to the i-th present pair: `inf` when its ranges do not overlap, otherwise the entropy over the common range |
| Divergence.PairsOrder | src/process_data.py:27-29 | the loops visit pair (i, j) at step `i * len(variables) + j`, once each |
| Divergence.KlLengthBound | src/process_data.py:26-59 | the list never has more entries than there are (vehicle type, variable) pairs |
| Trajectories.WithId | src/process_data.py:11 | one `groupby("id")` group holds only table rows with that id, and is nonempty when the id occurs |
| Trajectories.WithoutId | src/process_data.py:11 | removing one vehicle's rows leaves only other vehicles' rows and removes at least one row when the id occurs |
| Trajectories.IdLessIrreflexive | src/process_data.py:11 | no id sorts before itself in `groupby`'s order |
| Trajectories.IdLessTransitive | src/process_data.py:11 | `groupby`'s id order is transitive |
| Trajectories.IdLessTotal | src/process_data.py:11 | any two different ids, integers or names, are ordered one way or the other |
| Trajectories.MinId | src/process_data.py:11 | the id `groupby` visits first occurs in the table |
| Trajectories.MinIdLeast | src/process_data.py:11 | no id of the table sorts before the one `groupby` visits first: numerically for integer ids, by code point for names |
| Trajectories.ForwardGroups | src/process_data.py:11 | every group kept by the filter is nonempty |
| Trajectories.Concat | src/process_data.py:12 | `pd.concat` raises exactly when there is nothing to concatenate |
| Trajectories.ForwardIff | src/process_data.py:11 | a vehicle is kept exactly when all of its rows have `xVelocity >= 0` |
| Trajectories.ForwardRowsFromInput | src/process_data.py:11-12 | every output row is an input row |
| Trajectories.ForwardRowsMembership | src/process_data.py:11-12 | a row is in the output exactly when it is an input row of a vehicle that never moves backwards |
| Trajectories.ForwardRowsPerVehicle | src/process_data.py:11-12 | each kept vehicle keeps all its rows in table order; each dropped vehicle keeps none |
| Trajectories.ForwardRowsAscending | src/process_data.py:11-12 | the output is grouped by vehicle in ascending id order: numeric for the integer ids of a highD table, lexicographic for the vehicle names of a SUMO recording |
| Trajectories.DefaultThresholdLabels | src/process_data.py:10-13 | with the default `length_threshold` of 6, a kept row is `bus` when wider than 6 and `car` at width 6 or below |
| Trajectories.FilterAndClassifySpec | src/process_data.py:10-14 | `filter_and_classify` raises exactly when no vehicle is kept; otherwise its rows are the kept rows and a row is `bus` exactly when its width exceeds the threshold |
| Trajectories.IqrFilter | src/process_data.py:17-21 | every kept value lies in `[Q1 - 1.5 IQR, Q3 + 1.5 IQR]` and no rows are added |
| Trajectories.IqrFilterCounts | src/process_data.py:21 | each row is kept as often as it occurs when its value is in the window, and dropped otherwise |
| Trajectories.IqrFilterAppend | src/process_data.py:21 | the filter keeps relative order: filtering a concatenation filters each part |
| Trajectories.IqrFilterKeepsCentre | src/process_data.py:18-21 | when Q1 <= Q3, a row whose value lies between the quantiles is never dropped |
| Worker.MeanTarget | src/bayesian_optimize.py:36 | the target is `nan` exactly for an empty list or one holding `nan`, `-inf` exactly when otherwise some entry is infinite, and else the negated mean |
| Worker.MeanTargetAntitone | src/bayesian_optimize.py:36 | a list of divergences that is nowhere larger never scores lower |
| Worker.ExecuteTask | src/bayesian_optimize.py:28-41 | a `None` task stops the worker; otherwise the task is acknowledged, and a result carrying the task's own parameters is pushed exactly when the evaluation succeeded |
| Worker.PushedSpec | src/bayesian_optimize.py:33-41 | a worker pushes as many results as it had successful evaluations, and each result is the one some successful task produces |
| Worker.PushedInOrder | src/bayesian_optimize.py:33-41 | the result of each successful task sits right after those of the successful tasks before it, so tasks and results match one to one, in order |
| Worker.RunWorker | src/bayesian_optimize.py:27-41 | the worker loop stops at the first `None`, acknowledges every task before it, and pushes their results in order |
| Scheduler.IssueWhenSpent | src/bayesian_optimize.py:65-80 | with the budget spent, the handler sets the done flag and changes nothing else |
| Scheduler.IssueStallsIff | src/bayesian_optimize.py:65-78 | the handler spins forever exactly when the budget is open and every suggestion it gets is a duplicate |
| Scheduler.IssueFirstNovel | src/bayesian_optimize.py:65-78 | the handler stops at the first suggestion whose rounded fingerprint is new, having skipped only duplicates |
| Scheduler.IssueRecords | src/bayesian_optimize.py:69-72 | exactly the fingerprint of the issued task joins the issued set |
| Scheduler.IssueCounts | src/bayesian_optimize.py:73-74 | issuing raises the counter by one and leaves the flag alone |
| Scheduler.IssueQueues | src/bayesian_optimize.py:67-70 | the one task put on the queue is the accepted suggestion rounded to four decimals |
| Scheduler.IssueAsks | src/bayesian_optimize.py:65-66 | the optimizer is asked exactly the suggestions the handler consumed, in order |
| Scheduler.HandleResultRegistersFirst | src/bayesian_optimize.py:62-66 | a result is registered with the optimizer before any suggestion is asked for |
| Scheduler.HandleResultSpent | src/bayesian_optimize.py:63-80 | with the budget spent, a result is registered and the flag set; no task is issued |
| Scheduler.HandleResultIssues | src/bayesian_optimize.py:62-80 | with the budget open, a returning handler issues exactly one new, rounded task, records its fingerprint and counts it |
| Scheduler.FlagOnNextResult | src/bayesian_optimize.py:65-80 | the result that lets the counter reach the budget does not set the flag; the next result sets it and issues nothing |
| Scheduler.HandleResultPreserves | src/bayesian_optimize.py:62-80 | one handled result keeps the handler's invariant: counter within budget, issued set equal to the fingerprints of the handler's tasks, no fingerprint repeated, flag only once the budget is spent |
| Scheduler.HandleResultRounds | src/bayesian_optimize.py:67-70 | every task the handler ever put is on the four-decimal grid |
| Scheduler.DoneStopsIssuing | src/bayesian_optimize.py:64-80 | once the flag is up, a result issues nothing and changes only the call log |
| Scheduler.HandlerPrintsDiffer | src/bayesian_optimize.py:69-72 | no two tasks issued by the handler have the same fingerprint |
| Scheduler.HandlerTasksDiffer | src/bayesian_optimize.py:67-72 | no two tasks issued by the handler are equal as dictionaries |
| Scheduler.RunExit | src/bayesian_optimize.py:55-58 | the handler loop ends on the flag, on a `None` result, when no result arrives, or while spinning, and every result it took before the last was real |
| Scheduler.RunRegisters | src/bayesian_optimize.py:55-63 | every result the loop takes is registered once, in the order taken, and nothing else is registered |
| Scheduler.RunPreserves | src/bayesian_optimize.py:55-81 | the loop keeps the invariant, so the handler never puts more tasks than the budget |
| Scheduler.RunAppends | src/bayesian_optimize.py:55-81 | the task queue only grows, by at most one task per result taken |
| Scheduler.ResultHandler | src/bayesian_optimize.py:44-81 | the loop, one result at a time, ends exactly as the step-by-step definition does |
| Scheduler.Seed | src/bayesian_optimize.py:114-117 | seeding puts the first `cpu_count` suggestions on the queue as given, asks for nothing else, and issues, counts and flags nothing |
| Scheduler.SeededConsistent | src/bayesian_optimize.py:114-117 | the state after seeding satisfies the handler's invariant for every budget |
| Scheduler.SeedMayRepeat | src/bayesian_optimize.py:114-117 | a seed already on the grid and suggested again is put on the queue a second time |

## Left out

- Concurrency: processes, threads, the lock and the counter's own lock are not modelled. Steps run one at a time, which is what the lock guarantees for the handler.
- Workers taking tasks off the queue: the task queue is the log of every `put`. The worker's `task_queue.task_done()` is modelled as the acknowledgement of each evaluated task; `result_queue.task_done()` and `join` are left out.
- The driver's polling loop (`bayesian_optimize.py:148-152`), `KeyboardInterrupt`, `result_thread.join()` and `terminate()`: these involve timing and signals.
- The worker's check of the done flag between tasks (`bayesian_optimize.py:28`): it is set by another thread at an arbitrary moment, so the worker model runs until a `None` task.
- The optimizer's internals (Gaussian process, acquisition function, random state): it is a given stream of suggestions. `Scheduler.Seed` requires the stream to hold at least `cpu_count` suggestions because the optimizer always answers.
- `task_function` and the SUMO simulation: each evaluation is an input, either a list of divergences or a failure.
- `handle_exception`, logging, `print` and the JSON logger: output only.
- Canonical.Round: models exact decimal rounding of real numbers. Binary floating-point representation error and negative `ndigits` are not modelled.
- Worker.MeanTarget: models `nan` and `-inf` as their own cases. Floating-point rounding in the sum and the division is not modelled.
- The counter is a 32-bit `multiprocessing.Value("i")`: the model uses an unbounded counter. The counter never exceeds the budget, so no wrap-around occurs for any budget that fits in 32 bits.
- `cal_kl_divergence`: the lookup `a_cache["hist_kde_data"]` (`process_data.py:24-25`) is not modelled; `CalKlDivergence` takes the two inner maps as inputs. `np.linspace`, `np.interp`, the normalisation and `scipy.stats.entropy` are the `measure` parameter, which may answer a number, `inf` or `nan`; the one error `np.interp` raises there, x and y arrays of different lengths, is modelled in `Divergence.Entry`. The histogram fields of the cache tuple are not read.
- Trajectories: table values are reals, so `NaN` is not modelled. pandas drops a vehicle with a `NaN` xVelocity (`process_data.py:11`), labels a `NaN` width `car` (`process_data.py:13`), drops `NaN` values in `iqr_filter` (`process_data.py:21`), and drops rows with a `NaN` id in `groupby`.
- `iqr_filter`: the 5% and 95% quantiles are inputs, because pandas' quantile interpolation is floating-point numerics.
- Trajectories.FilterAndClassifySpec: the new `vehicleType` column is a label next to each row, and the DataFrame index is not modelled.
- The rest of the repository (plotting, data merging, `get_all_kl_divergence`, `save_distributions`, the simulation wrapper) is not part of this model.
