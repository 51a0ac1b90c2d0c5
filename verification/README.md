# hse-dc-lab1 in Dafny: the ordered-list benchmark and the Monte Carlo work split

This project models two parts of the lab repository.

The first is the reader-writer-lock benchmark of `src/rwlock/pth_ll_rwl.c`:
- a sorted singly-linked integer set with `Insert`, `Member`, `Delete`, `Is_empty` and `Free_list`;
- the single-threaded seeding loop of `main`;
- the worker loop of `Thread_work` / `My_Thread_work`;
- the merge of the workers' operation counters into the shared totals under `count_mutex`.

The second is the work partitioning of `src/montecarlo/montecarlo.c`:
- the thread-count clamp;
- the split of `points_arr` into one contiguous slice per worker, with the last worker taking the remainder;
- the counting loop of `routine`;
- the sum of the workers' results.

Files:

- `OrderedList.dfy`: the list. The chain reachable from `head` is a `seq<int>` of node keys, head first. Each operation is a pure function from the old chain to an `Outcome` holding the new chain and the C return value. Lemmas show that on a sorted chain:
  - `Insert` and `Delete` keep the chain sorted;
  - they change it exactly when the key is absent (respectively present);
  - their result is *the* sorted chain of the new key set.
- `Counting.dfy`: the operation kinds and the three counters.
  - C's truncating `/` is modelled as `CDiv`. It is built from a quotient by repeated subtraction, and the sign of its remainder is proved.
  - `Tally` gives the counters after a run of operations. It is proved additive and invariant under permutation. The shared totals are the `Tally` of all the workers' operations, so any interleaving of those operations gives the same totals.
  - The shared totals count exactly `thread_count * (total_ops / thread_count)` operations. That is never more than `total_ops`, and fewer by the remainder.
- `Workload.dfy`: the seeding loop, one worker, and the whole benchmark with the workers run one after another.
  - The list stays sorted through any sequence of whole operations.
  - The seeded list holds exactly the drawn keys, all below `MAX_KEY`.
- `MonteCarlo.dfy`: the clamp, the slice plan and the counting loops.
  - The slices tile `[0, throw_count)`: they are back to back, disjoint and cover every point, and their sizes add up to `throw_count`.
  - The total of the per-worker counts is the number of points passing the test, so it is at most `throw_count`.
- `SeqFacts.dfy`: two multiset facts about splicing one element into or out of a sequence.

External inputs are parameters:
- The pseudo-random generator is a function parameter. For seeding, `draw(j)` is the j-th `my_rand` value. `my_rand.h` is not part of this model, and `my_rand` is taken to return an `unsigned` value, so `draw` yields natural numbers and `my_rand(&seed) % MAX_KEY` is never negative. For a worker, `draw(i)` is the operation class and key of its i-th iteration: the `my_drand` threshold test and the `% MAX_KEY` reduction have already been applied.
- The points of the Monte Carlo run are an input sequence; `throw_count` is their length.
- The floating-point test `x * x + y * y <= 1.0` is an opaque predicate `inside`.

In `pth_ll_rwl.c` every worker runs `total_ops / thread_count` iterations (lines 310 and 349), so the remainder operations are never performed (`Counting.DroppedRemainder`).

In `montecarlo.c` a thread count of 0 with at least two points gets past the clamp of line 57. It then divides by zero at line 72. `MonteCarlo.Montecarlo` returns `DivisionByZero` for exactly those inputs.

## Model

| member | source | states |
|---|---|---|
| OrderedList.Scan | src/rwlock/pth_ll_rwl.c:179-182 | the search loop stops at the first node whose key is not smaller than the value, or at NULL; every node before it holds a smaller key |
| OrderedList.Member | src/rwlock/pth_ll_rwl.c:216-234 | returns 0 or 1, and 1 only when the value is in the chain |
| OrderedList.MemberSorted | src/rwlock/pth_ll_rwl.c:216-234 | on a sorted chain `Member` returns 1 exactly when the value is present |
| OrderedList.Insert | src/rwlock/pth_ll_rwl.c:171-198 | returns 0 and leaves the chain alone when the value is found, else returns 1 and links exactly one new node holding the value |
| OrderedList.InsertSorted | src/rwlock/pth_ll_rwl.c:171-198 | on a sorted chain `Insert` keeps it sorted, returns 1 exactly when the value was absent, and adds exactly that value to the key set |
| OrderedList.SpliceInSorted | src/rwlock/pth_ll_rwl.c:184-191 | a node linked between the smaller keys and the first larger key keeps the chain sorted and adds its key |
| OrderedList.InsertIsSortedUnion | src/rwlock/pth_ll_rwl.c:171-198 | on a sorted chain `Insert` yields the unique sorted chain of the old keys plus the value |
| OrderedList.InsertTwice | src/rwlock/pth_ll_rwl.c:172-198 | inserting an absent key twice returns 1 then 0 and leaves exactly one node holding it |
| OrderedList.Delete | src/rwlock/pth_ll_rwl.c:237-271 | returns 0 or 1, and 1 only when the value is present; on 0 the chain is left alone, on 1 exactly one node holding the value is removed; deleting the first key advances `head` to the second node |
| OrderedList.DeleteUnlinksOne | src/rwlock/pth_ll_rwl.c:250-264 | a successful `Delete` removes one node holding the value and keeps all other nodes in their order |
| OrderedList.DeleteSorted | src/rwlock/pth_ll_rwl.c:237-271 | on a sorted chain `Delete` keeps it sorted, returns 1 exactly when the value was present, and removes exactly that value from the key set |
| OrderedList.SpliceOutSorted | src/rwlock/pth_ll_rwl.c:250-264 | unlinking a node of a sorted chain keeps it sorted |
| OrderedList.SpliceOutKeys | src/rwlock/pth_ll_rwl.c:250-264 | unlinking a node of a sorted chain removes exactly its key |
| OrderedList.DeleteIsSortedDifference | src/rwlock/pth_ll_rwl.c:237-271 | on a sorted chain `Delete` yields the unique sorted chain of the old keys minus the value |
| OrderedList.InsertThenMember | src/rwlock/pth_ll_rwl.c:173-234 | on a sorted chain a key just inserted is a member |
| OrderedList.DeleteThenMember | src/rwlock/pth_ll_rwl.c:216-271 | on a sorted chain a key just deleted is not a member |
| OrderedList.IsEmpty | src/rwlock/pth_ll_rwl.c:296-301 | returns 0 or 1, and 1 exactly when the chain holds no key |
| OrderedList.IsEmptyIffNoMember | src/rwlock/pth_ll_rwl.c:296-301 | `Is_empty` returns 1 exactly when `Member` finds no value at all |
| OrderedList.FreeList | src/rwlock/pth_ll_rwl.c:274-293 | the `current` / `following` walk releases every node exactly once, in chain order, and an empty chain releases nothing |
| OrderedList.SortedUnique | src/rwlock/pth_ll_rwl.c:171-172 | two sorted chains with the same keys are the same chain, so the sorted list is a canonical set representation |
| Counting.QuotRemainder | src/rwlock/pth_ll_rwl.c:310 | the quotient of magnitudes leaves a remainder in [0, divisor) |
| Counting.CDivTruncates | src/rwlock/pth_ll_rwl.c:310 | C's `/` leaves a remainder smaller than the divisor in magnitude and of the dividend's sign, that is, it truncates toward zero |
| Counting.One | src/rwlock/pth_ll_rwl.c:315-331 | each iteration bumps exactly one of the three counters by one, the counter of the operation's class, and leaves the other two alone |
| Counting.TallySize | src/rwlock/pth_ll_rwl.c:309-332 | after a run of operations the three counters are non-negative and add up to the run's length |
| Counting.TallyExtend | src/rwlock/pth_ll_rwl.c:312-332 | one more iteration adds exactly the counter of its operation |
| Counting.TallyConcat | src/rwlock/pth_ll_rwl.c:334-338 | merging the counters of two runs gives the counters of the two runs back to back |
| Counting.TallyPermutation | src/rwlock/pth_ll_rwl.c:315-331 | any reordering of the same operations gives the same counters |
| Counting.MergedSum | src/rwlock/pth_ll_rwl.c:334-338 | after `k` merges of workers with `n` iterations each, the totals are non-negative and count `k * n` operations |
| Counting.DroppedRemainder | src/rwlock/pth_ll_rwl.c:310 | `thread_count * (total_ops / thread_count)` is at most `total_ops` and short of it by less than `thread_count`; for a negative `total_ops` no iteration runs |
| Counting.MergedTotals | src/rwlock/pth_ll_rwl.c:103-107 | once all workers merged, the totals count exactly `thread_count * (total_ops / thread_count)` operations, never more than `total_ops` |
| Counting.MergedIsTally | src/rwlock/pth_ll_rwl.c:309-338 | after `k` workers have merged, the shared totals are the counters of all their operations taken together |
| Counting.AnyInterleaving | src/rwlock/pth_ll_rwl.c:309-338 | any interleaving of the workers' operations, one whole operation at a time, gives counters equal to the shared totals |
| Workload.Seed | src/rwlock/pth_ll_rwl.c:70-76 | for a positive `inserts_in_main` the seeding loop stops with `i == inserts_in_main` or `attempts == 2 * inserts_in_main` and never exceeds either bound; otherwise it makes no attempt; the list is sorted, has `i` nodes and holds exactly the keys drawn, all in [0, MAX_KEY) |
| Workload.SeedAttempt | src/rwlock/pth_ll_rwl.c:72-75 | one attempt keeps the list sorted, adds the drawn key to the key set, and grows the list exactly when `Insert` returns 1 |
| Workload.DrawnKeysBounded | src/rwlock/pth_ll_rwl.c:72 | every key reduced by `% MAX_KEY` lies in [0, MAX_KEY) |
| Workload.Iteration | src/rwlock/pth_ll_rwl.c:313-331 | one iteration applies the drawn operation to the list and bumps that operation's counter by one whatever the operation returned; `Member` leaves the list alone; sortedness is kept |
| Workload.ThreadWork | src/rwlock/pth_ll_rwl.c:304-332 | a worker runs `total_ops / thread_count` iterations (none when that is negative); its counters count exactly those iterations by class, and the list is the result of its operations in order |
| Workload.Worker | src/rwlock/pth_ll_rwl.c:304-338 | a worker adds its counters to the totals under `count_mutex` and leaves a sorted list sorted |
| Workload.Benchmark | src/rwlock/pth_ll_rwl.c:101-107 | with no workers nothing changes; otherwise the totals are the merge of every worker's counters and count `thread_count * (total_ops / thread_count)` operations, at most `total_ops`; a sorted seeded list stays sorted |
| Workload.RunPreservesSorted | src/rwlock/pth_ll_rwl.c:312-331 | any sequence of whole list operations keeps the list sorted and adds no key that was not inserted |
| MonteCarlo.ClampThreads | src/montecarlo/montecarlo.c:57 | the count is kept or becomes 1; it becomes 1 exactly when it is at least half the points (`throw_count >> 1`); 0 survives exactly when there are two or more points; several workers get at least two points each |
| MonteCarlo.TilesExtend | src/montecarlo/montecarlo.c:78-83 | a slice that starts where the earlier slices end extends their tiling |
| MonteCarlo.TilesSumSizes | src/montecarlo/montecarlo.c:72-83 | the sizes of slices that tile [0, n) add up to `n` |
| MonteCarlo.TilesOrdered | src/montecarlo/montecarlo.c:78-83 | slices that tile [0, n) lie inside it, and each ends before any later one starts |
| MonteCarlo.TilesCover | src/montecarlo/montecarlo.c:78-83 | every point index below `n` lies in some slice of a tiling of [0, n) |
| MonteCarlo.ShareArithmetic | src/montecarlo/montecarlo.c:72-73 | consecutive even shares meet, and the last share plus the remainder ends at `throw_count` |
| MonteCarlo.Place | src/montecarlo/montecarlo.c:72-82 | worker `i` gets id `i`, offset `i * single_thread_arr_size` and the even share, or for the last worker the share plus less than `thread_count` more points; its slice ends where the next starts, the last at `throw_count` |
| MonteCarlo.PlanSlices | src/montecarlo/montecarlo.c:72-83 | one slice per worker in worker order, tiling [0, throw_count); all but the last hold the even share and the last is less than `thread_count` points longer |
| MonteCarlo.CountInsideBounds | src/montecarlo/montecarlo.c:24-37 | a worker's count is at most its number of points, equals it exactly when all pass, and is 0 exactly when none passes |
| MonteCarlo.CountInsideAppend | src/montecarlo/montecarlo.c:30-36 | counting is additive over adjacent runs of points |
| MonteCarlo.Routine | src/montecarlo/montecarlo.c:22-40 | `routine` counts the points of its slice that pass the test, at most `arr_size` of them |
| MonteCarlo.RunWorkers | src/montecarlo/montecarlo.c:86-95 | the result of worker `i` is the count of its own slice, at most the slice's size |
| MonteCarlo.Sum | src/montecarlo/montecarlo.c:98-101 | the loop adds up all results in thread order |
| MonteCarlo.TilesCount | src/montecarlo/montecarlo.c:78-101 | adding up the counts of slices that tile [0, n) counts each of the first `n` points once |
| MonteCarlo.Montecarlo | src/montecarlo/montecarlo.c:54-101 | the total is the number of points passing the test, at most `throw_count`; it is a division by zero exactly when the thread count is 0 and there are at least two points |

## Left out

- The reader-writer lock. `pthread_rwlock_*` and the custom `my_rwlock_t` (`rwlock.h` is not part of this model) are left out. Each list operation is modelled as one atomic step, which is what the lock provides.
- Threads, mutexes, `pthread_create` / `pthread_join`. Workers run one after another. `Counting.AnyInterleaving` shows the totals are the same for any order of the operations. The list contents do depend on the order, and only sortedness is proved for every order.
- A failed `pthread_create` in `montecarlo.c` (lines 87-90) is not modelled. The code only reports it and carries on. `thread_handler[i]` is then never set, so the `pthread_join` of line 94 and the `*result[i]` read of line 99 are undefined behaviour, which the model has no outcome for.
- `my_rand`, `my_drand`, `rand` and `srand`. They are replaced by draw functions and an input point sequence.
- The `which_op` threshold test on the search and insert percentages is floating point. A worker draw already carries its operation class.
- The floating-point parts of `montecarlo.c`: `get_random_point`, the point-generation loop (lines 64-70), the `dist <= 1.0` test (an opaque predicate here) and the PI estimate.
- `Get_input`, `Usage`, `Print`, every `printf` / `scanf`, argument parsing and the `argc` checks.
- Timers (`GET_TIME`).
- `malloc`, `memset` and `free` as memory operations. `OrderedList.FreeList` returns the released keys instead.
- `Free_list` leaves `head` pointing at freed memory. The model has no chain after it, so that dangling pointer is not represented.
- The `mandelbrot` program, the header files and `tests/measure.py`.
- Workload.Seed: `2 * inserts_in_main` is computed without the C `int` overflow that an input above `INT_MAX / 2` would cause. Its keys are in [0, MAX_KEY) only because `my_rand` is taken to be unsigned (`draw: nat -> nat`).
- MonteCarlo.Montecarlo: thread and point counts are natural numbers. The `uint64_t` conversion of a negative `strtoll` result to a huge count is not modelled. Every slice offset, slice size and point count the model computes is at most `throw_count`, so none of these wraps in `uint64_t`. The byte sizes passed to `malloc` and `memset` (`thread_count * sizeof(pthread_t)` at line 59, `sizeof(point_t) * throw_count` at lines 61-62, the products at lines 75-76) are larger and can wrap for counts of 2^60 or more. An undersized buffer would then be overrun by the fill loop of lines 64-70. These byte sizes are left out together with `malloc`.
