// The three prime-counting drivers of Tread_pool.C: one pass over the whole
// array, one block per thread, and one block per task of a ThreadPool. The
// blocks tile the array, so all three count the same primes.

module PrimeCounting {
  import opened Primes
  import ThreadPool

  /** Number of elements in the array the drivers scan. */
  const ARRAY_SIZE: nat := 100000000

  /** Number of primes among s[lo], ..., s[hi - 1]. */
  ghost function PrimeCount(s: seq<int>, lo: nat, hi: nat): (r: nat)
    requires lo <= hi <= |s|
    ensures r <= hi - lo
    decreases hi - lo
  {
    if lo == hi then 0 else PrimeCount(s, lo, hi - 1) + (if IsPrime(s[hi - 1]) then 1 else 0)
  }

  /** The indices in [lo, hi) that hold a prime. */
  ghost function PrimeIndices(s: seq<int>, lo: nat, hi: nat): set<nat>
    requires lo <= hi <= |s|
  {
    set i: nat | lo <= i < hi && IsPrime(s[i])
  }

  /** PrimeCount counts exactly the prime positions of the range. */
  lemma {:induction false} PrimeCountIsCardinality(s: seq<int>, lo: nat, hi: nat)
    requires lo <= hi <= |s|
    ensures PrimeCount(s, lo, hi) == |PrimeIndices(s, lo, hi)|
    decreases hi - lo
  {
    if lo == hi {
      assert PrimeIndices(s, lo, hi) == {};
    } else {
      PrimeCountIsCardinality(s, lo, hi - 1);
      if IsPrime(s[hi - 1]) {
        assert PrimeIndices(s, lo, hi) == PrimeIndices(s, lo, hi - 1) + {hi - 1};
      } else {
        assert PrimeIndices(s, lo, hi) == PrimeIndices(s, lo, hi - 1);
      }
    }
  }

  /** Counting two adjacent ranges separately and adding gives the count of
      their union. */
  lemma {:induction false} PrimeCountSplit(s: seq<int>, lo: nat, mid: nat, hi: nat)
    requires lo <= mid <= hi <= |s|
    ensures PrimeCount(s, lo, mid) + PrimeCount(s, mid, hi) == PrimeCount(s, lo, hi)
    decreases hi - mid
  {
    if mid < hi {
      PrimeCountSplit(s, lo, mid, hi - 1);
    }
  }

  // ---- Block partitioning: block_size = ARRAY_SIZE / k, last block extended ----

  /** start of block t of k over [0, n). */
  function BlockStart(t: nat, k: nat, n: nat): (r: nat)
    requires t < k
    ensures r <= n
  {
    MulMonotone(n / k, t, k);
    t * (n / k)
  }

  /** end of block t of k over [0, n): the next block's start, or n for the
      last block. */
  function BlockEnd(t: nat, k: nat, n: nat): (r: nat)
    requires t < k
    ensures BlockStart(t, k, n) <= r <= n
    ensures t + 1 < k ==> r == BlockStart(t + 1, k, n)
    ensures t + 1 == k ==> r == n
  {
    MulMonotone(n / k, t + 1, k);
    if t == k - 1 then n else BlockStart(t, k, n) + n / k
  }

  /** The block that holds index i. */
  function BlockOf(i: nat, k: nat, n: nat): (t: nat)
    requires 0 < k && i < n
    ensures t < k && BlockStart(t, k, n) <= i < BlockEnd(t, k, n)
  {
    var b := n / k;
    if b == 0 then
      k - 1
    else if i / b >= k - 1 then
      MulMonotone(b, k - 1, i / b);
      k - 1
    else
      i / b
  }

  /** Earlier blocks end before later blocks start. */
  lemma BlocksOrdered(t1: nat, t2: nat, k: nat, n: nat)
    requires t1 < t2 < k
    ensures BlockEnd(t1, k, n) <= BlockStart(t2, k, n)
  {
    MulMonotone(n / k, t1 + 1, t2);
  }

  /** The blocks are disjoint and cover [0, n): index i lies in block t
      exactly when t is BlockOf(i). */
  lemma BlockMembership(i: nat, t: nat, k: nat, n: nat)
    requires t < k && i < n
    ensures BlockStart(t, k, n) <= i < BlockEnd(t, k, n) <==> t == BlockOf(i, k, n)
  {
    var u := BlockOf(i, k, n);
    if t < u {
      BlocksOrdered(t, u, k, n);
    } else if u < t {
      BlocksOrdered(u, t, k, n);
    }
  }

  /** Sum of the prime counts of blocks 0 .. j - 1. */
  ghost function BlockCountSum(s: seq<int>, k: nat, j: nat): nat
    requires j <= k
  {
    if j == 0 then 0
    else BlockCountSum(s, k, j - 1) + PrimeCount(s, BlockStart(j - 1, k, |s|), BlockEnd(j - 1, k, |s|))
  }

  /** The first j blocks together count the primes of [0, end of block j - 1). */
  lemma {:induction false} BlockCountSumPrefix(s: seq<int>, k: nat, j: nat)
    requires 0 < j <= k
    ensures BlockCountSum(s, k, j) == PrimeCount(s, 0, BlockEnd(j - 1, k, |s|))
  {
    var n := |s|;
    if j == 1 {
      assert BlockStart(0, k, n) == 0;
    } else {
      BlockCountSumPrefix(s, k, j - 1);
      PrimeCountSplit(s, 0, BlockStart(j - 1, k, n), BlockEnd(j - 1, k, n));
    }
  }

  /** The per-block counts of any k >= 1 blocks add up to the single-pass count. */
  lemma BlocksCountAll(s: seq<int>, k: nat)
    requires 0 < k
    ensures BlockCountSum(s, k, k) == PrimeCount(s, 0, |s|)
  {
    BlockCountSumPrefix(s, k, k);
  }

  // ---- The counting loops ----

  /** The loop each thread or task runs over its block [start, end). */
  method CountPrimesInBlock(a: array<int>, start: nat, end: nat) returns (localCount: nat)
    requires start <= end <= a.Length
    ensures localCount == PrimeCount(a[..], start, end)
  {
    localCount := 0;
    var i := start;
    while i < end
      invariant start <= i <= end
      invariant localCount == PrimeCount(a[..], start, i)
    {
      var p := IsPrimeTrial(a[i]);
      if p {
        localCount := localCount + 1;
      }
      i := i + 1;
    }
  }

  /** count_primes_single_thread: one pass over the whole array. */
  method CountPrimesSingleThread(arr: array<int>) returns (count: nat)
    requires arr.Length == ARRAY_SIZE
    ensures count == PrimeCount(arr[..], 0, ARRAY_SIZE)
    ensures count == |PrimeIndices(arr[..], 0, ARRAY_SIZE)|
  {
    count := 0;
    var i := 0;
    while i < ARRAY_SIZE
      invariant i <= ARRAY_SIZE
      invariant count == PrimeCount(arr[..], 0, i)
    {
      var p := IsPrimeTrial(arr[i]);
      if p {
        count := count + 1;
      }
      i := i + 1;
    }
    PrimeCountIsCardinality(arr[..], 0, ARRAY_SIZE);
  }

  /** count_primes_multi_thread: one block per thread, each block's count
      added to the shared total. */
  method CountPrimesMultiThread(arr: array<int>, threadCount: nat) returns (totalCount: nat)
    requires arr.Length == ARRAY_SIZE && threadCount > 0
    ensures totalCount == PrimeCount(arr[..], 0, ARRAY_SIZE)
  {
    totalCount := 0;
    var t := 0;
    while t < threadCount
      invariant t <= threadCount
      invariant totalCount == BlockCountSum(arr[..], threadCount, t)
    {
      var startIdx := BlockStart(t, threadCount, ARRAY_SIZE);
      var endIdx := BlockEnd(t, threadCount, ARRAY_SIZE);
      var localCount := CountPrimesInBlock(arr, startIdx, endIdx);
      totalCount := totalCount + localCount;
      t := t + 1;
    }
    BlocksCountAll(arr[..], threadCount);
  }

  /** The tasks 0, 1, ..., k - 1, one per block, in submission order. */
  ghost predicate BlockIds(tasks: seq<ThreadPool.Task>, k: nat)
  {
    |tasks| == k && forall i :: 0 <= i < k ==> tasks[i] == i
  }

  /** count_primes_with_threadpool: one task per block is enqueued on a pool
      of poolSize workers; the tasks run, and wait_for_completion drains the
      pool and joins all poolSize workers. The destructor drains once more
      and joins none. */
  method CountPrimesWithThreadPool(arr: array<int>, poolSize: nat)
    returns (totalCount: nat, joins: nat, joinsAgain: nat)
    requires arr.Length == ARRAY_SIZE && poolSize > 0
    ensures totalCount == PrimeCount(arr[..], 0, ARRAY_SIZE)
    ensures joins == poolSize && joinsAgain == 0
  {
    var pool := new ThreadPool.Pool(poolSize);
    ghost var slots := pool.threads[..];
    ThreadPool.AllJoinableJoined(slots);
    var t := 0;
    while t < poolSize
      invariant t <= poolSize
      invariant pool.Valid() && fresh(pool.Repr)
      invariant pool.Submitted == pool.Contents && BlockIds(pool.Submitted, t)
      invariant pool.Running == 0
      invariant pool.threads[..] == slots
      invariant pool.Live == poolSize && pool.Workers()
    {
      pool.Enqueue(t);
      t := t + 1;
    }
    totalCount := RunBlockTasks(pool, arr, poolSize);
    var _, j := ThreadPool.WaitForCompletion(pool);
    joins := j;
    ThreadPool.NothingLeftToJoin(pool.threads[..]);
    var _, j2 := ThreadPool.WaitForCompletion(pool);
    joinsAgain := j2;
  }

  /** A worker of the pool taking the queued block tasks in FIFO order and
      running each, until the queue is empty. The tasks' counts are added to
      the shared total. */
  method RunBlockTasks(pool: ThreadPool.Pool, arr: array<int>, k: nat) returns (totalCount: nat)
    requires pool.Valid() && arr.Length == ARRAY_SIZE && 0 < k
    requires pool.Submitted == pool.Contents && BlockIds(pool.Submitted, k) && pool.Running == 0
    requires pool.Live > 0 && pool.Workers()
    modifies pool`head, pool`tail, pool`Nodes, pool`Contents, pool`Taken
    modifies pool`Running, pool`Finished, pool`activeTasks, pool`Live
    ensures pool.Valid() && pool.Contents == [] && pool.Running == 0
    ensures pool.Live == old(pool.Live)
    ensures totalCount == PrimeCount(arr[..], 0, ARRAY_SIZE)
  {
    ghost var submitted := pool.Submitted;
    totalCount := 0;
    while pool.head != null
      invariant pool.Valid()
      invariant pool.Submitted == submitted && pool.Running == 0
      invariant pool.Live == old(pool.Live) && pool.Workers()
      invariant |pool.Taken| <= k
      invariant totalCount == BlockCountSum(arr[..], k, |pool.Taken|)
      decreases |pool.Contents|
    {
      var localCount := RunNextBlockTask(pool, arr, k);
      totalCount := totalCount + localCount;
    }
    BlocksCountAll(arr[..], k);
  }

  /** One round of the worker loop on a non-empty queue: take the head task,
      which FIFO order makes block |Taken|, count its primes, finish it. */
  method RunNextBlockTask(pool: ThreadPool.Pool, arr: array<int>, k: nat) returns (localCount: nat)
    requires pool.Valid() && pool.head != null && arr.Length == ARRAY_SIZE
    requires BlockIds(pool.Submitted, k) && pool.Running == 0 && pool.Live > 0 && pool.Workers()
    modifies pool`head, pool`tail, pool`Nodes, pool`Contents, pool`Taken
    modifies pool`Running, pool`Finished, pool`activeTasks, pool`Live
    ensures pool.Valid() && pool.Running == 0 && pool.Live == old(pool.Live) && pool.Workers()
    ensures |old(pool.Taken)| < k && |pool.Taken| == |old(pool.Taken)| + 1
    ensures |pool.Contents| == |old(pool.Contents)| - 1
    ensures localCount == PrimeCount(arr[..], BlockStart(|old(pool.Taken)|, k, ARRAY_SIZE),
                                     BlockEnd(|old(pool.Taken)|, k, ARRAY_SIZE))
  {
    ghost var taken := |pool.Taken|;
    assert pool.Contents[0] == taken by {
      assert pool.Submitted[taken] == (pool.Taken + pool.Contents)[taken];
    }
    var r := pool.WorkerTake();
    var task := r.task;
    localCount := CountPrimesInBlock(arr, BlockStart(task, k, ARRAY_SIZE), BlockEnd(task, k, ARRAY_SIZE));
    var _ := pool.WorkerFinish();
  }
}
