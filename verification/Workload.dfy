/** The driver of src/rwlock/pth_ll_rwl.c around the ordered list: the
    single-threaded seeding loop of `main`, the per-thread operation loop of
    `Thread_work` / `My_Thread_work`, and the merge of per-thread counters
    into the shared totals.

    The pseudo-random generator is a parameter: `draw(j)` is the j-th value a
    generator call yields. Inside one worker the reader-writer lock only
    brackets each list operation, so a worker is a sequential loop and the lock
    calls disappear; a concurrent run applies the workers' operations in some
    interleaving, one whole operation at a time.
 */
module Workload {
  import OrderedList
  import opened Counting

  /** Random keys are reduced below this bound (`MAX_KEY`). */
  const MaxKey: int := 100000000

  // ---------------------------------------------------------------------
  // Seeding

  /** The keys `my_rand(&seed) % MAX_KEY` of the first `n` attempts. */
  function DrawnKeys(draw: nat -> nat, n: nat): set<int> {
    if n == 0 then {} else DrawnKeys(draw, n - 1) + {draw(n - 1) % MaxKey}
  }

  /** The seeding loop of `main`: insert random keys into the empty list until
      `target` inserts succeeded or `2 * target` attempts were made. */
  method Seed(target: int, draw: nat -> nat) returns (list: seq<int>, inserted: int, attempts: int)
    ensures OrderedList.Sorted(list)
    ensures |list| == inserted
    ensures 0 <= inserted <= attempts
    ensures target <= 0 ==> list == [] && attempts == 0
    ensures target > 0 ==> inserted <= target && attempts <= 2 * target
    ensures target > 0 ==> inserted == target || attempts == 2 * target
    ensures OrderedList.Keys(list) == DrawnKeys(draw, attempts)
    ensures forall k :: k in list ==> 0 <= k < MaxKey
  {
    list := [];
    inserted, attempts := 0, 0;
    while inserted < target && attempts < 2 * target
      invariant OrderedList.Sorted(list)
      invariant |list| == inserted
      invariant 0 <= inserted <= attempts
      invariant target <= 0 ==> attempts == 0
      invariant target > 0 ==> inserted <= target && attempts <= 2 * target
      invariant OrderedList.Keys(list) == DrawnKeys(draw, attempts)
    {
      var success;
      list, success := SeedAttempt(list, draw, attempts);
      attempts := attempts + 1;
      if success == 1 {
        inserted := inserted + 1;
      }
    }
    DrawnKeysBounded(draw, attempts);
    assert forall k :: k in list ==> k in OrderedList.Keys(list);
  }

  /** One pass through the seeding loop's body: draw a key below `MAX_KEY`
      and try to insert it. The list stays sorted, now holds the keys of one
      more attempt, and grows exactly when `Insert` reports success. */
  method SeedAttempt(list: seq<int>, draw: nat -> nat, attempts: nat) returns (after: seq<int>, success: int)
    requires OrderedList.Sorted(list)
    requires OrderedList.Keys(list) == DrawnKeys(draw, attempts)
    ensures OrderedList.Sorted(after)
    ensures OrderedList.Keys(after) == DrawnKeys(draw, attempts + 1)
    ensures success == 1 ==> |after| == |list| + 1
    ensures success != 1 ==> after == list
  {
    var key := draw(attempts) % MaxKey;
    var r := OrderedList.Insert(list, key);
    OrderedList.InsertSorted(list, key);
    after, success := r.list, r.rv;
  }

  /** Every seeded key lies in [0, MAX_KEY). */
  lemma {:induction false} DrawnKeysBounded(draw: nat -> nat, n: nat)
    ensures forall k :: k in DrawnKeys(draw, n) ==> 0 <= k < MaxKey
  {
    if n > 0 {
      DrawnKeysBounded(draw, n - 1);
    }
  }

  /** The effect on the list of one operation; its return value is discarded. */
  function Step(list: seq<int>, op: Op): seq<int> {
    match op.kind
    case MemberOp => list
    case InsertOp => OrderedList.Insert(list, op.key).list
    case DeleteOp => OrderedList.Delete(list, op.key).list
  }

  /** The list after applying `ops` in order, one whole operation at a time. */
  function Run(list: seq<int>, ops: seq<Op>): seq<int> {
    if |ops| == 0 then list else Step(Run(list, ops[..|ops| - 1]), ops[|ops| - 1])
  }

  lemma RunExtend(list: seq<int>, ops: seq<Op>, op: Op)
    ensures Run(list, ops + [op]) == Step(Run(list, ops), op)
  {
    assert (ops + [op])[..|ops|] == ops;
  }

  lemma RunNext(shared: seq<int>, draw: nat -> Op, i: nat)
    ensures Run(shared, Drawn(draw, i + 1)) == Step(Run(shared, Drawn(draw, i)), draw(i))
  {
    RunExtend(shared, Drawn(draw, i), draw(i));
  }

  /** One iteration of the worker loop for a drawn operation: `Member` under
      the read lock, or `Insert` / `Delete` under the write lock, then the
      local counter of the operation's class goes up by one whether or not
      the list changed. The operation's return value is ignored. */
  method Iteration(list: seq<int>, mine: Counts, op: Op) returns (after: seq<int>, counted: Counts)
    ensures after == Step(list, op)
    ensures op.kind == MemberOp ==> after == list
    ensures OrderedList.Sorted(list) ==> OrderedList.Sorted(after)
    ensures counted == Merge(mine, One(op))
    ensures counted.member + counted.insert + counted.delete == mine.member + mine.insert + mine.delete + 1
  {
    counted := mine;
    match op.kind {
      case MemberOp =>
        var found := OrderedList.Member(list, op.key);
        after := list;
        counted := counted.(member := counted.member + 1);
      case InsertOp =>
        var inserted := OrderedList.Insert(list, op.key);
        after := inserted.list;
        if OrderedList.Sorted(list) {
          OrderedList.InsertSorted(list, op.key);
        }
        counted := counted.(insert := counted.insert + 1);
      case DeleteOp =>
        var deleted := OrderedList.Delete(list, op.key);
        after := deleted.list;
        if OrderedList.Sorted(list) {
          OrderedList.DeleteSorted(list, op.key);
        }
        counted := counted.(delete := counted.delete + 1);
    }
  }

  /** One worker: `total_ops / thread_count` iterations over its own draws,
      with the three local counters starting at zero. */
  method ThreadWork(shared: seq<int>, totalOps: int, threadCount: int, draw: nat -> Op)
    returns (list: seq<int>, mine: Counts)
    requires threadCount >= 1
    ensures mine.member + mine.insert + mine.delete == Iterations(totalOps, threadCount)
    ensures mine == Tally(Drawn(draw, Iterations(totalOps, threadCount)))
    ensures list == Run(shared, Drawn(draw, Iterations(totalOps, threadCount)))
  {
    var opsPerThread := CDiv(totalOps, threadCount);
    mine := Counts(0, 0, 0);
    list := shared;
    var i := 0;
    while i < opsPerThread
      invariant 0 <= i
      invariant i <= opsPerThread || i == 0
      invariant mine == Tally(Drawn(draw, i))
      invariant list == Run(shared, Drawn(draw, i))
    {
      TallyNext(draw, i);
      RunNext(shared, draw, i);
      list, mine := Iteration(list, mine, draw(i));
      i := i + 1;
    }
    TallySize(Drawn(draw, i));
  }

  // ---------------------------------------------------------------------
  // Aggregation

  /** One worker from creation to the merge of its counters under
      `count_mutex`. */
  method Worker(list: seq<int>, totals: Counts, totalOps: int, threadCount: int, draw: nat -> Op)
    returns (after: seq<int>, merged: Counts)
    requires threadCount >= 1
    ensures merged == Merge(totals, Tally(Drawn(draw, Iterations(totalOps, threadCount))))
    ensures OrderedList.Sorted(list) ==> OrderedList.Sorted(after)
  {
    var mine;
    after, mine := ThreadWork(list, totalOps, threadCount, draw);
    if OrderedList.Sorted(list) {
      RunPreservesSorted(list, Drawn(draw, Iterations(totalOps, threadCount)));
    }
    merged := Merge(totals, mine);
  }

  /** The whole benchmark after seeding: `thread_count` workers run and each
      merges its counters once under `count_mutex`. The workers run here one
      after another, which is one of the interleavings the lock admits; the
      totals are the same for every interleaving (see `AnyInterleaving`). */
  method Benchmark(seeded: seq<int>, threadCount: int, totalOps: int, draws: nat -> nat -> Op)
    returns (list: seq<int>, totals: Counts)
    ensures threadCount <= 0 ==> list == seeded && totals == Counts(0, 0, 0)
    ensures threadCount >= 1 ==> totals == Merged(draws, Iterations(totalOps, threadCount), threadCount)
    ensures threadCount >= 1 ==> totals.member + totals.insert + totals.delete == threadCount * Iterations(totalOps, threadCount)
    ensures totals.member + totals.insert + totals.delete <= (if totalOps < 0 then 0 else totalOps)
    ensures OrderedList.Sorted(seeded) ==> OrderedList.Sorted(list)
  {
    list := seeded;
    totals := Counts(0, 0, 0);
    if threadCount <= 0 {
      return;
    }
    var rank := 0;
    while rank < threadCount
      invariant 0 <= rank <= threadCount
      invariant totals == Merged(draws, Iterations(totalOps, threadCount), rank)
      invariant OrderedList.Sorted(seeded) ==> OrderedList.Sorted(list)
    {
      list, totals := Worker(list, totals, totalOps, threadCount, draws(rank));
      rank := rank + 1;
    }
    MergedTotals(draws, totalOps, threadCount);
  }

  /** Whatever order the locked operations run in, the list stays sorted and
      holds no key that was neither there before nor inserted. */
  lemma {:induction false} RunPreservesSorted(list: seq<int>, ops: seq<Op>)
    requires OrderedList.Sorted(list)
    ensures OrderedList.Sorted(Run(list, ops))
    ensures OrderedList.Keys(Run(list, ops)) <= OrderedList.Keys(list) + set i | 0 <= i < |ops| && ops[i].kind == InsertOp :: ops[i].key
    decreases |ops|
  {
    if |ops| > 0 {
      var prefix := ops[..|ops| - 1];
      RunPreservesSorted(list, prefix);
      var last := ops[|ops| - 1];
      match last.kind {
        case MemberOp =>
        case InsertOp => OrderedList.InsertSorted(Run(list, prefix), last.key);
        case DeleteOp => OrderedList.DeleteSorted(Run(list, prefix), last.key);
      }
      assert forall i :: 0 <= i < |prefix| ==> prefix[i] == ops[i];
    }
  }
}
