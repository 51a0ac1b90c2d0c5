/** The operation counters of src/rwlock/pth_ll_rwl.c: the operation a worker
    draws, the three counters it keeps, the truncating division that fixes how
    many operations each worker performs, and the merge of per-thread counters
    into the shared totals. */
module Counting {
  import SeqFacts

  /** The operation class a worker picks from `which_op`. */
  datatype OpClass = MemberOp | InsertOp | DeleteOp

  /** One worker draw: the operation class and the key `val`. */
  datatype Op = Op(kind: OpClass, key: int)

  /** The three operation counters (`member_count`, `insert_count`,
      `delete_count`, or their per-thread `my_` copies). */
  datatype Counts = Counts(member: int, insert: int, delete: int)

  /** How many whole `b`s fit into `a`, by repeated subtraction. */
  function Quot(a: nat, b: nat): nat
    requires b > 0
    decreases a
  {
    if a < b then 0 else 1 + Quot(a - b, b)
  }

  /** What `Quot` leaves over is a proper remainder. */
  lemma {:induction false} QuotRemainder(a: nat, b: nat)
    requires b > 0
    ensures 0 <= a - Quot(a, b) * b < b
    decreases a
  {
    if a >= b {
      QuotRemainder(a - b, b);
      assert Quot(a, b) * b == b + Quot(a - b, b) * b;
    }
  }

  function Abs(x: int): nat {
    if x < 0 then -x else x
  }

  /** C's `/` on `int`: the quotient of the magnitudes, negated when exactly
      one operand is negative, so that it is truncated toward zero. */
  function CDiv(a: int, b: int): int
    requires b != 0
  {
    var q: int := Quot(Abs(a), Abs(b));
    if (a < 0) == (b < 0) then q else -q
  }

  /** The remainder left by `CDiv` is smaller than the divisor in magnitude
      and takes the sign of the dividend, which determines the quotient. */
  lemma CDivTruncates(a: int, b: int)
    requires b != 0
    ensures var r := a - CDiv(a, b) * b;
      (b > 0 && a >= 0 ==> 0 <= r < b) &&
      (b > 0 && a < 0 ==> -b < r <= 0) &&
      (b < 0 && a >= 0 ==> 0 <= r < -b) &&
      (b < 0 && a < 0 ==> b < r <= 0)
  {
    var q := Quot(Abs(a), Abs(b));
    QuotRemainder(Abs(a), Abs(b));
    if a >= 0 && b < 0 {
      assert CDiv(a, b) * b == q * Abs(b);
    } else if a < 0 && b > 0 {
      assert CDiv(a, b) * b == -(q * Abs(b));
    } else if a < 0 && b < 0 {
      assert CDiv(a, b) * b == -(q * Abs(b));
    }
  }

  /** How many times a worker's `for (i = 0; i < ops_per_thread; i++)` runs,
      with `ops_per_thread = total_ops / thread_count`. */
  function Iterations(totalOps: int, threadCount: int): nat
    requires threadCount >= 1
  {
    var opsPerThread := CDiv(totalOps, threadCount);
    if opsPerThread < 0 then 0 else opsPerThread
  }

  /** The critical section under `count_mutex`: add a worker's counters into
      the shared totals. */
  function Merge(totals: Counts, mine: Counts): (r: Counts) {
    Counts(totals.member + mine.member, totals.insert + mine.insert, totals.delete + mine.delete)
  }

  /** The first `n` draws of a worker. */
  function Drawn(draw: nat -> Op, n: nat): (ops: seq<Op>)
    ensures |ops| == n
  {
    if n == 0 then [] else Drawn(draw, n - 1) + [draw(n - 1)]
  }

  /** The counter an operation bumps: exactly the one of its class. */
  function One(op: Op): (c: Counts)
    ensures c.member >= 0 && c.insert >= 0 && c.delete >= 0
    ensures c.member + c.insert + c.delete == 1
    ensures op.kind == MemberOp ==> c.member == 1
    ensures op.kind == InsertOp ==> c.insert == 1
    ensures op.kind == DeleteOp ==> c.delete == 1
  {
    match op.kind
    case MemberOp => Counts(1, 0, 0)
    case InsertOp => Counts(0, 1, 0)
    case DeleteOp => Counts(0, 0, 1)
  }

  /** The counters after `ops`, whether or not each operation changed the list. */
  function Tally(ops: seq<Op>): Counts {
    if |ops| == 0 then Counts(0, 0, 0) else Merge(Tally(ops[..|ops| - 1]), One(ops[|ops| - 1]))
  }

  /** Every operation is counted exactly once, in exactly one counter. */
  lemma {:induction false} TallySize(ops: seq<Op>)
    ensures var c := Tally(ops);
      c.member >= 0 && c.insert >= 0 && c.delete >= 0 &&
      c.member + c.insert + c.delete == |ops|
  {
    if |ops| > 0 {
      TallySize(ops[..|ops| - 1]);
    }
  }

  /** Extending a run of operations by one more. */
  lemma TallyExtend(ops: seq<Op>, op: Op)
    ensures Tally(ops + [op]) == Merge(Tally(ops), One(op))
  {
    assert (ops + [op])[..|ops|] == ops;
  }

  /** What one more iteration of the worker loop adds. */
  lemma TallyNext(draw: nat -> Op, i: nat)
    ensures Tally(Drawn(draw, i + 1)) == Merge(Tally(Drawn(draw, i)), One(draw(i)))
  {
    TallyExtend(Drawn(draw, i), draw(i));
  }

  /** The shared totals once the first `k` workers have merged, each worker
      having drawn `perThread` operations. */
  function Merged(draws: nat -> nat -> Op, perThread: nat, k: nat): Counts {
    if k == 0 then Counts(0, 0, 0)
    else Merge(Merged(draws, perThread, k - 1), Tally(Drawn(draws(k - 1), perThread)))
  }

  /** Each of the `k` merged workers contributed exactly `perThread`
      operations, spread over the three counters. */
  lemma {:induction false} MergedSum(draws: nat -> nat -> Op, perThread: nat, k: nat)
    ensures var c := Merged(draws, perThread, k);
      c.member >= 0 && c.insert >= 0 && c.delete >= 0 &&
      c.member + c.insert + c.delete == k * perThread
  {
    if k > 0 {
      MergedSum(draws, perThread, k - 1);
      TallySize(Drawn(draws(k - 1), perThread));
      assert k * perThread == (k - 1) * perThread + perThread;
    }
  }

  /** The workers together perform `thread_count * (total_ops / thread_count)`
      operations: never more than `total_ops`, and fewer by the remainder of
      the division, which no thread performs. */
  lemma DroppedRemainder(totalOps: int, threadCount: int)
    requires threadCount >= 1
    ensures totalOps >= 0 ==> 0 <= totalOps - threadCount * Iterations(totalOps, threadCount) < threadCount
    ensures totalOps < 0 ==> Iterations(totalOps, threadCount) == 0
  {
    CDivTruncates(totalOps, threadCount);
  }

  /** The totals of all `thread_count` workers count exactly
      `thread_count * (total_ops / thread_count)` operations, so never more
      than `total_ops`. */
  lemma MergedTotals(draws: nat -> nat -> Op, totalOps: int, threadCount: int)
    requires threadCount >= 1
    ensures var c := Merged(draws, Iterations(totalOps, threadCount), threadCount);
      c.member + c.insert + c.delete == threadCount * Iterations(totalOps, threadCount) &&
      c.member + c.insert + c.delete <= (if totalOps < 0 then 0 else totalOps)
  {
    MergedSum(draws, Iterations(totalOps, threadCount), threadCount);
    DroppedRemainder(totalOps, threadCount);
  }

  lemma MergeAssociative(x: Counts, y: Counts, z: Counts)
    ensures Merge(Merge(x, y), z) == Merge(x, Merge(y, z))
  {
  }

  /** Counting is additive over consecutive runs of operations. */
  lemma TallyAppend(a: seq<Op>, b: seq<Op>)
    requires |b| > 0
    ensures Tally(a + b) == Merge(Tally(a + b[..|b| - 1]), One(b[|b| - 1]))
  {
    assert (a + b)[..|a + b| - 1] == a + b[..|b| - 1];
  }

  lemma {:induction false} TallyConcat(a: seq<Op>, b: seq<Op>)
    ensures Tally(a + b) == Merge(Tally(a), Tally(b))
    decreases |b|
  {
    if |b| == 0 {
      assert a + b == a;
    } else {
      var front, x := b[..|b| - 1], b[|b| - 1];
      TallyConcat(a, front);
      TallyAppend(a, b);
      assert Tally(b) == Merge(Tally(front), One(x));
      MergeAssociative(Tally(a), Tally(front), One(x));
    }
  }

  /** Taking one operation out of a run takes its counter out of the tally. */
  lemma {:induction false} TallyRemoveAt(b: seq<Op>, k: nat)
    requires k < |b|
    ensures Tally(b) == Merge(Tally(b[..k] + b[k + 1..]), One(b[k]))
    decreases |b|
  {
    var rest := b[..k] + b[k + 1..];
    var last := |b| - 1;
    if k == last {
      assert rest == b[..last];
    } else {
      var shorter := b[..last];
      TallyRemoveAt(shorter, k);
      assert shorter[..k] == b[..k] && shorter[k + 1..] == b[k + 1..last];
      assert rest[..|rest| - 1] == b[..k] + b[k + 1..last];
      assert rest[|rest| - 1] == b[last];
    }
  }

  /** The totals do not depend on the order in which the operations ran: any
      interleaving of the workers' operations yields the same counters. */
  lemma {:induction false} TallyPermutation(a: seq<Op>, b: seq<Op>)
    requires multiset(a) == multiset(b)
    ensures Tally(a) == Tally(b)
    decreases |a|
  {
    if |a| == 0 {
      assert |b| == |multiset(b)|;
    } else {
      var x := a[|a| - 1];
      assert x in multiset(b);
      var k :| 0 <= k < |b| && b[k] == x;
      SeqFacts.MultisetRemoveAt(a, |a| - 1);
      SeqFacts.MultisetRemoveAt(b, k);
      TallyPermutation(a[..|a| - 1], b[..k] + b[k + 1..]);
      TallyRemoveAt(b, k);
    }
  }

  /** The operations of the first `k` workers, each worker's draws in its own
      order and the workers one after another. */
  function AllDrawn(draws: nat -> nat -> Op, perThread: nat, k: nat): (ops: seq<Op>)
    ensures |ops| == k * perThread
  {
    if k == 0 then [] else AllDrawn(draws, perThread, k - 1) + Drawn(draws(k - 1), perThread)
  }

  /** The shared totals are the counters of all the workers' operations. */
  lemma {:induction false} MergedIsTally(draws: nat -> nat -> Op, perThread: nat, k: nat)
    ensures Merged(draws, perThread, k) == Tally(AllDrawn(draws, perThread, k))
  {
    if k > 0 {
      var earlier, last := AllDrawn(draws, perThread, k - 1), Drawn(draws(k - 1), perThread);
      assert AllDrawn(draws, perThread, k) == earlier + last;
      MergedIsTally(draws, perThread, k - 1);
      TallyConcat(earlier, last);
    }
  }

  /** Any interleaving of the workers' operations, one whole operation at a
      time, yields the same counters as the shared totals. */
  lemma AnyInterleaving(draws: nat -> nat -> Op, perThread: nat, k: nat, run: seq<Op>)
    requires multiset(run) == multiset(AllDrawn(draws, perThread, k))
    ensures Tally(run) == Merged(draws, perThread, k)
  {
    MergedIsTally(draws, perThread, k);
    TallyPermutation(run, AllDrawn(draws, perThread, k));
  }
}
