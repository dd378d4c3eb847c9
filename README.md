# Thread pool and prime counting, modelled in Dafny

`Tread_pool.C` counts the primes in an array of 100 000 000 random integers
in three ways: one pass on one thread, one block per `std::thread`, and one
block per task of a hand-written `ThreadPool`. The pool keeps its pending
tasks in a singly linked FIFO (`head`/`tail` of `Node`), counts queued plus
running tasks in `active_tasks`, and shuts down through `stop_flag`.

This project models that core in four modules:

- `ThreadPool` (`pool.dfy`): the pool as a class whose fields are updated in
  place. Each critical section is one atomic method: `Enqueue`, the worker's
  take (`WorkerTake`) and finish (`WorkerFinish`) sections, and the drain
  (`AwaitIdleAndStop`, then `JoinWorkers`). Any interleaving of threads is
  some order of calls to these methods. Ghost fields give the public view:
  - `Contents`: the queued tasks, head first;
  - `Submitted` and `Taken`: every task ever enqueued and dequeued, in order;
  - `Running` and `Finished`: the number of taken tasks that have not
    finished and that have finished;
  - `Live`: the number of workers that have not returned from
    `worker_thread`.

  Only a live worker that is not running a task can call `WorkerTake`.
  A worker that takes the `Exit` branch is no longer live, and the join loop
  returns only once no worker is live (`Workers()` keeps
  `Running <= Live <= thread_count`).

  The invariant `Valid()` says four things:
  - the nodes spell out `Contents`, and `head` is null exactly when `tail` is;
  - tasks leave in the order they came (`Submitted == Taken + Contents`);
  - `active_tasks` equals the number queued plus the number running;
  - there are `thread_count` worker slots.
- `Primes` (`primes.dfy`): `is_prime` as a loop method proved equal to the
  mathematical definition of a prime. A supporting lemma shows that trial
  division up to the square root decides primality.
- `PrimeCounting` (`counting.dfy`): the block partition
  `block_size = ARRAY_SIZE / k`, with the last block extended to the end. It
  is proved to tile `[0, n)` into contiguous, disjoint blocks. The three
  drivers are loops proved to return the same number, the count of primes in
  the array. The pool driver enqueues one task per block, runs the tasks
  through `WorkerTake`/`WorkerFinish`, then drains the pool twice (once
  explicitly and once from the destructor).
- `RandomArray` (`generate.dfy`): the fill loop of `generate_random_array`
  with the mapping of a raw random value into `[MIN_VAL, MAX_VAL]`.

Two behaviours of the code are modelled as written:

- The constructor accepts a worker count of 0; the code has no check. Such
  a pool has no live worker, so no task is ever taken, and a drain after an
  `enqueue` never proceeds.
- `enqueue` after the stop flag is set still queues the task; the code has
  no guard. Once the workers have been joined no worker is live. The task is
  then never taken, and the next drain never proceeds.

## Model

| member | source | states |
|---|---|---|
| ThreadPool.Node.constructor | Tread_pool.C:30 | a new node holds its task and has no successor |
| ThreadPool.Pool.constructor | Tread_pool.C:51-58 | the queue is empty (head and tail null), the stop flag is false, no task is active, nothing has been submitted, and every one of the numThreads worker slots is joinable and its worker live |
| ThreadPool.Pool.Enqueue | Tread_pool.C:67-84 | the queue becomes the old queue followed by the task; on an empty queue head and tail become the new node, otherwise head is unchanged; active_tasks grows by exactly one; the stop flag is outside its modifies clause; the pool invariant is kept |
| ThreadPool.Pool.WorkerTake | Tread_pool.C:111-125 | called by a live worker that holds no task, the worker waits exactly when the queue is empty and stop is unset, and exits exactly when the queue is empty and stop is set; on a non-empty queue it always takes, even after stop; the taken task is the old head; the rest of the queue keeps its order; tail is reset when the last node leaves, so head is null exactly when tail is; a worker that exits is no longer live, and any other outcome leaves the live count unchanged; the invariant is kept |
| ThreadPool.Pool.WorkerFinish | Tread_pool.C:129-135 | active_tasks drops by exactly one; the notification fires exactly when it reaches 0, and then nothing is queued or running; the invariant (active = queued + running) is kept |
| ThreadPool.Pool.AwaitIdleAndStop | Tread_pool.C:88-96 | the caller proceeds exactly when no task is active, and only then sets the stop flag; otherwise the flag is unchanged; once it proceeds the queue is empty and every submitted task has been taken and finished exactly once, in submission order |
| ThreadPool.Pool.JoinWorkers | Tread_pool.C:99-103 | called only once the stop flag is set and nothing is queued or running, the state in which every worker leaves, it joins each slot that was joinable once, leaves no slot joinable, and returns with no worker live |
| ThreadPool.CountTrue | Tread_pool.C:99-103 | the number of joinable slots is at most the number of slots |
| ThreadPool.WaitForCompletion | Tread_pool.C:87-104 | if no task is active, it sets stop, every submitted task has run exactly once, it joins each joinable slot once, and no worker is live afterwards; if a task is active, it stays blocked and changes neither the flag nor the slots |
| ThreadPool.NothingLeftToJoin | Tread_pool.C:61-64 | after a completed drain, the destructor's second drain joins no worker |
| ThreadPool.AllJoinableJoined | Tread_pool.C:99-103 | when every slot is joinable, the join loop joins all thread_count workers, so the pool driver's drain joins pool_size workers |
| Primes.IsPrimeTrial | Tread_pool.C:158-167 | is_prime returns true exactly when n is prime |
| Primes.PrimeIffNoDivisorUpToRoot | Tread_pool.C:162-165 | n is prime exactly when n >= 2 and no d with 2 <= d and d*d <= n divides n |
| Primes.DivisorUpToRoot | Tread_pool.C:162-164 | a composite number has a divisor whose square is at most the number |
| Primes.OddHasNoEvenDivisor | Tread_pool.C:161-163 | an odd number has no even divisor, so skipping the even candidates is sound |
| Primes.NextOddCandidate | Tread_pool.C:163-164 | a failed odd candidate i extends "no divisor below" from i to i + 2 |
| Primes.NoDivisorBelowRoot | Tread_pool.C:163-166 | when every candidate below i failed and i*i > n, n is prime |
| PrimeCounting.PrimeCount | Tread_pool.C:174-178 | the number of primes in a range is at most the range's length |
| PrimeCounting.PrimeCountIsCardinality | Tread_pool.C:174-178 | PrimeCount is the size of the set of prime positions in the range |
| PrimeCounting.PrimeCountSplit | Tread_pool.C:216-224 | the counts of two adjacent ranges add up to the count of their union |
| PrimeCounting.BlockStart | Tread_pool.C:209 | t * block_size stays within the array for every t < k |
| PrimeCounting.BlockEnd | Tread_pool.C:210 | a block ends where the next one starts, the last block ends at the array's end, and no block ends before it starts |
| PrimeCounting.BlockOf | Tread_pool.C:199-210 | every index of the array lies in some block |
| PrimeCounting.BlocksOrdered | Tread_pool.C:208-210 | an earlier block ends no later than a later one starts |
| PrimeCounting.BlockMembership | Tread_pool.C:199-210 | an index lies in block t exactly when t is its block, so the blocks are disjoint and cover the array |
| PrimeCounting.BlockCountSumPrefix | Tread_pool.C:208-224 | the counts of the first j blocks add up to the count of the array up to the end of block j - 1 |
| PrimeCounting.BlocksCountAll | Tread_pool.C:208-224 | for every k >= 1 the per-block counts add up to the single-pass count |
| PrimeCounting.CountPrimesInBlock | Tread_pool.C:213-220 | the block loop returns the number of primes in [start, end) |
| PrimeCounting.CountPrimesSingleThread | Tread_pool.C:170-187 | the single pass returns the number of prime positions of the array |
| PrimeCounting.CountPrimesMultiThread | Tread_pool.C:190-245 | the summed per-thread counts equal the single-pass count |
| PrimeCounting.CountPrimesWithThreadPool | Tread_pool.C:248-290 | the summed per-task counts equal the single-pass count; wait_for_completion proceeds and joins all pool_size workers; the destructor's second drain joins none |
| PrimeCounting.RunBlockTasks | Tread_pool.C:107-137 | a worker draining the queued block tasks in FIFO order adds up the count of the whole array and leaves the pool idle |
| PrimeCounting.RunNextBlockTask | Tread_pool.C:268-278 | one worker round takes the next block in submission order, returns its count, and leaves the pool valid with one fewer queued task |
| RandomArray.ValueFromRand | Tread_pool.C:152 | a non-negative raw value is mapped into [MIN_VAL, MAX_VAL], with the raw value's remainder modulo the range's width kept |
| RandomArray.EveryValueReachable | Tread_pool.C:152 | every value of [MIN_VAL, MAX_VAL] is produced by some raw value |
| RandomArray.GenerateRandomArray | Tread_pool.C:140-155 | the array has the requested size, element i is the mapped i-th raw value, and every element is in [MIN_VAL, MAX_VAL] |

## Left out

- Threads, `std::mutex`, `std::condition_variable` and `std::thread::join` are left out because they only add concurrency. Each critical section is one atomic method. A blocked `wait` is the `Waiting` outcome of `WorkerTake` or `proceeded == false`. Joining is clearing a slot's joinable flag.
- The lock-order inversion is left out. `enqueue` takes the queue lock then the state lock, and `wait_for_completion` takes them the other way round. It only shows up as a thread interleaving.
- ThreadPool.Pool.AwaitIdleAndStop, ThreadPool.Pool.JoinWorkers: the drain is split into two methods, so the model can call `Enqueue`, `WorkerTake` and `WorkerFinish` between them. The source cannot do that. `wait_for_completion` holds `state_mutex` from its `unique_lock` to its return, through the join loop. `enqueue` needs `state_mutex` while it holds `queue_mutex`. An `enqueue` in that window therefore either deadlocks with the join and a worker that still has to take `queue_mutex` to leave, or finishes after the join and leaves its task queued forever. The properties are proved over this larger set of call orders, which includes every order the source can produce. `JoinWorkers` still requires an empty, idle queue with the stop flag set.
- Double-drain behaviour is covered only in the serial order the destructor uses. Other interleavings are concurrency.
- Tasks are `nat` tokens, not `std::function<void()>` callables. The pool never looks inside a task.
- `new`/`delete` of nodes and the destructor's `delete[] threads` become Dafny heap allocation; nothing is freed.
- `std::sqrt` in `is_prime` is floating point. The loop bound `i <= (int)sqrt(n)` is modelled as the integer condition `i * i <= n`.
- `rand`, `srand` and `time` are replaced by a parameter: the sequence of raw values, each at least 0. The parameter has no upper bound, but `rand()` returns at most `RAND_MAX`, which may be as small as 32767. On such a platform the program never produces values above 42767, so RandomArray.EveryValueReachable is a statement about the mapping, not about the program's output. `std::chrono` timing, `std::cout` output and `main` are left out as I/O.
- `MAX_THREADS` is declared in the source but never used, so it is not modelled.
- Integer widths are not modelled. Every count is at most ARRAY_SIZE, which is below 2^32, so `unsigned int` and `size_t` never wrap. `t * block_size` never exceeds ARRAY_SIZE.
- PrimeCounting.CountPrimesMultiThread, PrimeCounting.CountPrimesWithThreadPool: require a thread count of at least 1. With 0 the source divides by zero in `ARRAY_SIZE / thread_count` and `ARRAY_SIZE / pool_size`, which is undefined behaviour. A caller passing `hardware_concurrency()`, which may return 0, would hit it.
- PrimeCounting.CountPrimesMultiThread sums the blocks in thread order. Addition is commutative, so any completion order gives the same total.
- PrimeCounting.CountPrimesWithThreadPool covers one schedule: all tasks are enqueued first, then a single worker runs them one after another. Other schedules are interleavings of the same pool methods.
- ThreadPool.Pool.WorkerFinish tracks how many tasks are running, not which ones. Finishing a task does not name the task that was taken.
