/** The work partitioning of src/montecarlo/montecarlo.c: the clamp on the
    thread count, the split of `points_arr` into one contiguous slice per
    worker, the counting loop each worker runs over its slice, and the sum of
    the workers' results.

    The points are an input (`throw_count` is their number) and the
    floating-point test `x * x + y * y <= 1.0` is the opaque predicate
    `inside`. Workers only read the shared array and return their own count,
    so running them one after another computes what the threads compute. */
module MonteCarlo {

  /** A worker's arguments (`pthread_args_t`): its id, the index in
      `points_arr` of its first point, and how many points it examines
      (`arr_size`). */
  datatype Slice = Slice(tid: nat, start: nat, size: nat)

  /** What `montecarlo` arrives at once its arguments are read: the number of
      points inside the circle, or the division by zero in
      `single_thread_arr_size = throw_count / thread_count` that a zero thread
      count can reach. */
  datatype Outcome = Counted(inside: nat) | DivisionByZero

  // ---------------------------------------------------------------------
  // Thread-count clamp

  /** `thread_count >= throw_count >> 1 ? 1 : thread_count`. */
  function ClampThreads(threadCount: nat, throwCount: nat): (r: nat)
    ensures r == 1 || r == threadCount
    ensures r != threadCount ==> throwCount <= 2 * threadCount + 1
    ensures throwCount <= 2 * threadCount + 1 ==> r == 1
    ensures r == 0 <==> threadCount == 0 && throwCount >= 2
    ensures r >= 2 ==> 2 * r + 2 <= throwCount
  {
    if threadCount >= throwCount / 2 then 1 else threadCount
  }

  // ---------------------------------------------------------------------
  // Slices

  /** The index one past the last point of a slice. */
  function End(s: Slice): nat {
    s.start + s.size
  }

  /** `slices` lie back to back from index 0 and the last one ends at `n`, so
      together they cover [0, n) once. */
  predicate Tiles(slices: seq<Slice>, n: nat)
    decreases |slices|
  {
    if |slices| == 0 then n == 0
    else
      var last := slices[|slices| - 1];
      End(last) == n && Tiles(slices[..|slices| - 1], last.start)
  }

  /** Appending a slice that starts where a tiling ends extends the tiling. */
  lemma TilesExtend(slices: seq<Slice>, s: Slice)
    requires Tiles(slices, s.start)
    ensures Tiles(slices + [s], End(s))
  {
    assert (slices + [s])[..|slices|] == slices;
  }

  /** The sizes of a tiling of [0, n) add up to `n`. */
  function SumSizes(slices: seq<Slice>): nat {
    if |slices| == 0 then 0 else SumSizes(slices[..|slices| - 1]) + slices[|slices| - 1].size
  }

  lemma {:induction false} TilesSumSizes(slices: seq<Slice>, n: nat)
    requires Tiles(slices, n)
    ensures SumSizes(slices) == n
    decreases |slices|
  {
    if |slices| > 0 {
      TilesSumSizes(slices[..|slices| - 1], slices[|slices| - 1].start);
    }
  }

  /** In a tiling of [0, n) every slice lies inside [0, n), and a slice ends
      no later than any later slice starts: the slices are disjoint. */
  lemma {:induction false} TilesOrdered(slices: seq<Slice>, n: nat)
    requires Tiles(slices, n)
    ensures forall i :: 0 <= i < |slices| ==> End(slices[i]) <= n
    ensures forall i, k :: 0 <= i < k < |slices| ==> End(slices[i]) <= slices[k].start
    decreases |slices|
  {
    if |slices| > 0 {
      var prefix := slices[..|slices| - 1];
      TilesOrdered(prefix, slices[|slices| - 1].start);
      assert forall i :: 0 <= i < |prefix| ==> prefix[i] == slices[i];
    }
  }

  /** Every point of [0, n) lies in some slice of a tiling of [0, n). */
  lemma {:induction false} TilesCover(slices: seq<Slice>, n: nat, j: nat)
    requires Tiles(slices, n) && j < n
    ensures exists i :: 0 <= i < |slices| && slices[i].start <= j < End(slices[i])
    decreases |slices|
  {
    var last := slices[|slices| - 1];
    if j < last.start {
      var prefix := slices[..|slices| - 1];
      TilesCover(prefix, last.start, j);
      var i :| 0 <= i < |prefix| && prefix[i].start <= j < End(prefix[i]);
      assert slices[i] == prefix[i];
    } else {
      assert last.start <= j < End(last);
    }
  }

  /** The arithmetic behind `single_thread_arr_size` and
      `last_thread_arr_size`: consecutive shares of `single` points
      meet, and the last share plus the remainder ends at `throwCount`. */
  lemma ShareArithmetic(threadCount: nat, throwCount: nat, i: nat)
    requires threadCount >= 1
    ensures (i + 1) * (throwCount / threadCount) == i * (throwCount / threadCount) + throwCount / threadCount
    ensures (threadCount - 1) * (throwCount / threadCount) + throwCount / threadCount + throwCount % threadCount == throwCount
  {
    var single := throwCount / threadCount;
    assert threadCount * single + throwCount % threadCount == throwCount;
    assert (threadCount - 1) * single + single == threadCount * single;
  }

  /** The fields the slicing loop fills in for worker `i`: its id, its offset
      `i * single_thread_arr_size`, and its size, which is the even share
      `throw_count / thread_count` except for the last worker, which also
      takes the remainder when there is more than one worker. Its slice ends
      where the next one starts, or at `throwCount` for the last worker. */
  method Place(threadCount: nat, throwCount: nat, i: nat) returns (s: Slice)
    requires i < threadCount
    ensures s.tid == i && s.start == i * (throwCount / threadCount)
    ensures i < threadCount - 1 ==> s.size == throwCount / threadCount
    ensures i == threadCount - 1 ==> throwCount / threadCount <= s.size < throwCount / threadCount + threadCount
    ensures End(s) == if i == threadCount - 1 then throwCount else (i + 1) * (throwCount / threadCount)
  {
    var single := throwCount / threadCount;
    var lastSize := single + (if threadCount == 1 then 0 else throwCount % threadCount);
    ShareArithmetic(threadCount, throwCount, i);
    s := Slice(i, i * single, if i == threadCount - 1 then lastSize else single);
  }

  /** The share computation and the slicing loop: one slice per worker, in worker order. The slices tile the
      whole array; every slice but the last holds the even share and the last
      one is less than `thread_count` points longer. The division needs a
      non-zero thread count. */
  method PlanSlices(threadCount: nat, throwCount: nat) returns (slices: seq<Slice>)
    requires threadCount >= 1
    ensures |slices| == threadCount
    ensures Tiles(slices, throwCount)
    ensures forall i :: 0 <= i < |slices| ==> slices[i].tid == i
    ensures forall i :: 0 <= i < |slices| - 1 ==> slices[i].size == throwCount / threadCount
    ensures throwCount / threadCount <= slices[|slices| - 1].size < throwCount / threadCount + threadCount
  {
    slices := [];
    var i := 0;
    while i < threadCount
      invariant 0 <= i <= threadCount
      invariant |slices| == i
      invariant forall k :: 0 <= k < i ==> slices[k].tid == k
      invariant forall k :: 0 <= k < i && k < threadCount - 1 ==> slices[k].size == throwCount / threadCount
      invariant i < threadCount ==> Tiles(slices, i * (throwCount / threadCount))
      invariant i == threadCount ==> Tiles(slices, throwCount)
      invariant i == threadCount ==> throwCount / threadCount <= slices[i - 1].size < throwCount / threadCount + threadCount
    {
      var s := Place(threadCount, throwCount, i);
      TilesExtend(slices, s);
      slices := slices + [s];
      i := i + 1;
    }
  }

  // ---------------------------------------------------------------------
  // Counting

  /** How many of `points` pass the point test. */
  function CountInside<P>(points: seq<P>, inside: P -> bool): nat {
    if |points| == 0 then 0
    else CountInside(points[..|points| - 1], inside) + (if inside(points[|points| - 1]) then 1 else 0)
  }

  /** A count never exceeds the number of points, reaches it exactly when
      every point passes, and is zero exactly when none does. */
  lemma {:induction false} CountInsideBounds<P>(points: seq<P>, inside: P -> bool)
    ensures CountInside(points, inside) <= |points|
    ensures CountInside(points, inside) == |points| <==> forall i :: 0 <= i < |points| ==> inside(points[i])
    ensures CountInside(points, inside) == 0 <==> forall i :: 0 <= i < |points| ==> !inside(points[i])
    decreases |points|
  {
    if |points| > 0 {
      var prefix := points[..|points| - 1];
      CountInsideBounds(prefix, inside);
      assert forall i :: 0 <= i < |prefix| ==> prefix[i] == points[i];
    }
  }

  /** Counting is additive over adjacent runs of points. */
  lemma {:induction false} CountInsideAppend<P>(a: seq<P>, b: seq<P>, inside: P -> bool)
    ensures CountInside(a + b, inside) == CountInside(a, inside) + CountInside(b, inside)
    decreases |b|
  {
    if |b| == 0 {
      assert a + b == a;
    } else {
      CountInsideAppend(a, b[..|b| - 1], inside);
      assert (a + b)[..|a + b| - 1] == a + b[..|b| - 1];
    }
  }

  /** The points a worker examines: `arr_size` points from its offset. */
  function Window<P>(points: seq<P>, s: Slice): seq<P>
    requires End(s) <= |points|
  {
    points[s.start..End(s)]
  }

  /** `routine`: count the points of one slice that pass the test. */
  method Routine<P>(points: seq<P>, s: Slice, inside: P -> bool) returns (count: nat)
    requires End(s) <= |points|
    ensures count == CountInside(Window(points, s), inside)
    ensures count <= s.size
  {
    count := 0;
    var i := 0;
    while i < s.size
      invariant 0 <= i <= s.size
      invariant count == CountInside(points[s.start..s.start + i], inside)
      invariant count <= i
    {
      assert points[s.start..s.start + i + 1][..i] == points[s.start..s.start + i];
      if inside(points[s.start + i]) {
        count := count + 1;
      }
      i := i + 1;
    }
  }

  // ---------------------------------------------------------------------
  // Summation

  function SumOf(counts: seq<nat>): nat {
    if |counts| == 0 then 0 else SumOf(counts[..|counts| - 1]) + counts[|counts| - 1]
  }

  /** The `inside_circle_count +=` loop: add the workers' results in thread order. */
  method Sum(results: seq<nat>) returns (total: nat)
    ensures total == SumOf(results)
  {
    total := 0;
    var i := 0;
    while i < |results|
      invariant 0 <= i <= |results|
      invariant total == SumOf(results[..i])
    {
      assert results[..i + 1][..i] == results[..i];
      total := total + results[i];
      i := i + 1;
    }
    assert results[..i] == results;
  }

  /** Counting slice by slice over a tiling of [0, n) counts the first `n`
      points once each. */
  lemma {:induction false} TilesCount<P>(points: seq<P>, slices: seq<Slice>, n: nat, results: seq<nat>, inside: P -> bool)
    requires Tiles(slices, n) && n <= |points|
    requires |results| == |slices|
    requires forall i :: 0 <= i < |slices| ==> End(slices[i]) <= |points|
    requires forall i :: 0 <= i < |slices| ==> results[i] == CountInside(Window(points, slices[i]), inside)
    ensures SumOf(results) == CountInside(points[..n], inside)
    decreases |slices|
  {
    if |slices| == 0 {
      assert points[..n] == [];
    } else {
      var last := slices[|slices| - 1];
      var prefix := slices[..|slices| - 1];
      TilesCount(points, prefix, last.start, results[..|results| - 1], inside);
      assert points[..n] == points[..last.start] + Window(points, last);
      CountInsideAppend(points[..last.start], Window(points, last), inside);
    }
  }

  // ---------------------------------------------------------------------
  // The whole computation

  /** The `pthread_create` / `pthread_join` loops: one `routine` per slice, results kept in thread order. */
  method RunWorkers<P>(points: seq<P>, slices: seq<Slice>, inside: P -> bool) returns (results: seq<nat>)
    requires forall i :: 0 <= i < |slices| ==> End(slices[i]) <= |points|
    ensures |results| == |slices|
    ensures forall i :: 0 <= i < |slices| ==> results[i] == CountInside(Window(points, slices[i]), inside)
    ensures forall i :: 0 <= i < |slices| ==> results[i] <= slices[i].size
  {
    results := [];
    var i := 0;
    while i < |slices|
      invariant 0 <= i <= |slices|
      invariant |results| == i
      invariant forall k :: 0 <= k < i ==> results[k] == CountInside(Window(points, slices[k]), inside)
      invariant forall k :: 0 <= k < i ==> results[k] <= slices[k].size
    {
      var count := Routine(points, slices[i], inside);
      results := results + [count];
      i := i + 1;
    }
  }

  /** `montecarlo` after argument parsing: clamp the thread count, plan the
      slices, run one `routine` per slice, and add up the results. The count
      is the number of points passing the test, never more than
      `throw_count`; a zero thread count with at least two points divides by
      zero. */
  method Montecarlo<P>(points: seq<P>, threadCount: nat, inside: P -> bool) returns (r: Outcome)
    ensures r == DivisionByZero <==> threadCount == 0 && |points| >= 2
    ensures r.Counted? ==> r.inside == CountInside(points, inside)
    ensures r.Counted? ==> r.inside <= |points|
  {
    var throwCount := |points|;
    var workers := ClampThreads(threadCount, throwCount);
    if workers == 0 {
      return DivisionByZero;
    }
    var slices := PlanSlices(workers, throwCount);
    TilesOrdered(slices, throwCount);
    var results := RunWorkers(points, slices, inside);
    var total := Sum(results);
    TilesCount(points, slices, throwCount, results, inside);
    assert points[..throwCount] == points;
    CountInsideBounds(points, inside);
    return Counted(total);
  }
}
