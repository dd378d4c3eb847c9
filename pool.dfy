// The ThreadPool of Tread_pool.C with every critical section as one atomic
// method. A thread interleaving is any order of calls to these methods.

module ThreadPool {

  /** A submitted unit of work. The source stores an opaque callable; here a
      task is a token that identifies it. */
  type Task = nat

  /** One cell of the hand-written singly linked queue. */
  class Node {
    const task: Task
    var next: Node?

    constructor (t: Task)
      ensures task == t && next == null
    {
      task := t;
      next := null;
    }
  }

  /** What one pass of a worker through its critical section decides. */
  datatype TakeOutcome =
    | Waiting          // wait predicate false: the worker stays blocked
    | Exit             // stop flag set and queue empty: the worker returns
    | Took(task: Task) // the head task was dequeued and will run

  /** Number of true entries of `s`. */
  function CountTrue(s: seq<bool>): (r: nat)
    ensures r <= |s|
  {
    if s == [] then 0 else CountTrue(s[..|s| - 1]) + (if s[|s| - 1] then 1 else 0)
  }

  class Pool {
    var head: Node?
    var tail: Node?
    var stopFlag: bool
    var activeTasks: nat
    const threadCount: nat
    /** joinable() of each worker slot. */
    const threads: array<bool>

    // public view of the pool
    ghost var Contents: seq<Task>    // pending tasks, head first
    ghost var Submitted: seq<Task>   // every task ever enqueued, in order
    ghost var Taken: seq<Task>       // every task ever dequeued, in order
    ghost var Running: nat           // taken, not yet finished
    ghost var Finished: nat          // taken and finished
    ghost var Live: nat              // workers that have not returned

    // implementation view
    ghost var Nodes: seq<Node>
    ghost var Repr: set<Node>

    ghost predicate Valid()
      reads this, Repr
    {
      LinkedQueue() && Bookkeeping() && threads.Length == threadCount
    }

    /** head, tail and the next links spell out Contents, head first. */
    ghost predicate LinkedQueue()
      reads this, Repr
    {
      (forall i :: 0 <= i < |Nodes| ==> Nodes[i] in Repr) &&
      (forall i :: 0 <= i < |Nodes| - 1 ==> Nodes[i] != Nodes[|Nodes| - 1]) &&
      |Nodes| == |Contents| &&
      (head == null <==> |Nodes| == 0) &&
      (tail == null <==> |Nodes| == 0) &&
      (|Nodes| != 0 ==> head == Nodes[0] && tail == Nodes[|Nodes| - 1] && tail.next == null) &&
      (forall i {:trigger Nodes[i].next} :: 0 <= i < |Nodes| - 1 ==> Nodes[i].next == Nodes[i + 1]) &&
      (forall i :: 0 <= i < |Nodes| ==> Nodes[i].task == Contents[i])
    }

    /** Tasks are dequeued in submission order, each taken task is running
        or done, and the counter is the number queued plus the number running. */
    ghost predicate Bookkeeping()
      reads this
    {
      Submitted == Taken + Contents &&
      |Taken| == Running + Finished &&
      activeTasks == |Contents| + Running
    }

    /** Each running task is held by its own live worker, and no more workers
        are live than were started. */
    ghost predicate Workers()
      reads this`Running, this`Live
    {
      Running <= Live <= threadCount
    }

    /** ThreadPool(num_threads): empty queue, stop flag false, no active
        task, and one joinable worker per slot. */
    constructor (numThreads: nat)
      ensures Valid() && Workers() && fresh(Repr) && fresh(threads)
      ensures head == null && tail == null
      ensures !stopFlag && activeTasks == 0
      ensures Contents == [] && Submitted == [] && Running == 0 && Finished == 0
      ensures Live == numThreads
      ensures threadCount == numThreads && threads.Length == numThreads
      ensures forall i :: 0 <= i < threads.Length ==> threads[i]
    {
      head, tail := null, null;
      stopFlag := false;
      activeTasks := 0;
      threadCount := numThreads;
      threads := new bool[numThreads](_ => true);
      Contents, Submitted, Taken := [], [], [];
      Running, Finished := 0, 0;
      Live := numThreads;
      Nodes := [];
      Repr := {};
    }

    /** enqueue: link a new node after the tail (or make it head and tail of
        an empty queue) and count one more active task. */
    method Enqueue(t: Task)
      requires Valid()
      modifies this`head, this`tail, this`activeTasks, this`Nodes, this`Contents, this`Submitted
      modifies this`Repr, Repr
      ensures Valid() && fresh(Repr - old(Repr))
      ensures Contents == old(Contents) + [t]
      ensures Submitted == old(Submitted) + [t]
      ensures old(head) == null ==> head == tail && tail != null && tail.task == t
      ensures old(head) != null ==> head == old(head)
      ensures activeTasks == old(activeTasks) + 1
    {
      var node := new Node(t);
      if tail == null {
        head, tail := node, node;
        Nodes := [node];
      } else {
        tail.next := node;
        tail := node;
        Nodes := Nodes + [node];
      }
      Contents, Submitted := Contents + [t], Submitted + [t];
      Repr := Repr + {node};
      activeTasks := activeTasks + 1;
    }

    /** The worker's locked section: wait for work or stop, leave when
        stopped with nothing queued, otherwise unlink the head node. The
        caller is a live worker that is not running a task. */
    method WorkerTake() returns (r: TakeOutcome)
      requires Valid() && Workers() && Running < Live
      modifies this`head, this`tail, this`Nodes, this`Contents, this`Taken, this`Running, this`Live
      ensures Valid()
      ensures r == Waiting <==> old(Contents) == [] && !old(stopFlag)
      ensures r == Exit <==> old(Contents) == [] && old(stopFlag)
      ensures r.Took? <==> old(Contents) != []
      ensures r.Took? ==>
        r.task == old(Contents)[0] &&
        Contents == old(Contents)[1..] &&
        Taken == old(Taken) + [r.task] &&
        Running == old(Running) + 1
      ensures !r.Took? ==>
        Contents == old(Contents) && Taken == old(Taken) && Running == old(Running)
      ensures (head == null) == (tail == null)
      ensures Workers()
      ensures r == Exit ==> Live == old(Live) - 1
      ensures r != Exit ==> Live == old(Live)
    {
      if !(head != null || stopFlag) {
        return Waiting;
      }
      if stopFlag && head == null {
        Live := Live - 1;
        return Exit;
      }
      var node := head;
      assert |Nodes| > 1 ==> head.next == Nodes[1];
      head := head.next;
      if head == null {
        tail := null;
      }
      r := Took(node.task);
      Nodes := Nodes[1..];
      Contents := Contents[1..];
      Taken := Taken + [node.task];
      Running := Running + 1;
    }

    /** The worker's second locked section, after running the task it took:
        one active task fewer; waiters are notified exactly when none is left.
        Every call pairs with an earlier take, so some task is running. */
    method WorkerFinish() returns (notify: bool)
      requires Valid() && Workers() && Running > 0
      modifies this`activeTasks, this`Running, this`Finished
      ensures Valid() && Workers()
      ensures activeTasks == old(activeTasks) - 1
      ensures notify <==> activeTasks == 0
      ensures notify ==> Contents == [] && Running == 0
      ensures Running == old(Running) - 1 && Finished == old(Finished) + 1
    {
      activeTasks := activeTasks - 1;
      notify := activeTasks == 0;
      Running, Finished := Running - 1, Finished + 1;
    }

    /** wait_for_completion up to the flag: the caller proceeds only once no
        task is active, and then raises the stop flag. At that point every
        submitted task has run exactly once. */
    method AwaitIdleAndStop() returns (proceeded: bool)
      requires Valid()
      modifies this`stopFlag
      ensures Valid()
      ensures proceeded <==> old(activeTasks) == 0
      ensures proceeded ==> stopFlag
      ensures !proceeded ==> stopFlag == old(stopFlag)
      ensures proceeded ==>
        Contents == [] && head == null && tail == null &&
        Taken == Submitted && Running == 0 && Finished == |Submitted|
    {
      if activeTasks != 0 {
        return false;
      }
      stopFlag := true;
      proceeded := true;
    }

    /** The join loop of wait_for_completion: every slot still joinable is
        joined once, so a second call joins nothing. join() returns only once
        its worker has left, which a worker does when the stop flag is set and
        nothing is queued or running. */
    method JoinWorkers() returns (joins: nat)
      requires Valid() && stopFlag && Contents == [] && Running == 0
      modifies this`Live, threads
      ensures Valid() && Workers() && Live == 0
      ensures joins == CountTrue(old(threads[..]))
      ensures forall i :: 0 <= i < threads.Length ==> !threads[i]
    {
      joins := 0;
      var i := 0;
      while i < threadCount
        invariant 0 <= i <= threadCount
        invariant joins == CountTrue(old(threads[..])[..i])
        invariant forall j :: 0 <= j < i ==> !threads[j]
        invariant forall j :: i <= j < threads.Length ==> threads[j] == old(threads[j])
      {
        assert old(threads[..])[..i + 1][..i] == old(threads[..])[..i];
        if threads[i] {
          threads[i] := false;
          joins := joins + 1;
        }
        i := i + 1;
      }
      assert old(threads[..])[..i] == old(threads[..]);
      Live := 0;
    }
  }

  /** wait_for_completion: block until no task is active, raise the stop
      flag, then join every worker slot that is still joinable. Called when
      tasks are still active it stays blocked and changes nothing. */
  method WaitForCompletion(pool: Pool) returns (proceeded: bool, joins: nat)
    requires pool.Valid()
    modifies pool`stopFlag, pool`Live, pool.threads
    ensures pool.Valid()
    ensures proceeded <==> old(pool.activeTasks) == 0
    ensures proceeded ==>
      pool.stopFlag && pool.head == null && pool.Running == 0 &&
      pool.Taken == pool.Submitted && pool.Finished == |pool.Submitted|
    ensures proceeded ==> pool.Live == 0
    ensures !proceeded ==> pool.Live == old(pool.Live)
    ensures proceeded ==> joins == CountTrue(old(pool.threads[..]))
    ensures proceeded ==> forall i :: 0 <= i < pool.threads.Length ==> !pool.threads[i]
    ensures !proceeded ==> pool.stopFlag == old(pool.stopFlag) && joins == 0
    ensures !proceeded ==> pool.threads[..] == old(pool.threads[..])
  {
    joins := 0;
    proceeded := pool.AwaitIdleAndStop();
    if proceeded {
      joins := pool.JoinWorkers();
    }
  }

  /** Once every slot has been joined, nothing is left to join: the
      destructor's second drain does not join a worker twice. */
  lemma {:induction false} NothingLeftToJoin(s: seq<bool>)
    requires forall i :: 0 <= i < |s| ==> !s[i]
    ensures CountTrue(s) == 0
  {
    if s != [] {
      NothingLeftToJoin(s[..|s| - 1]);
    }
  }

  /** Every joinable slot is joined: the join count is the number of
      joinable slots, at most the number of workers. */
  lemma {:induction false} AllJoinableJoined(s: seq<bool>)
    requires forall i :: 0 <= i < |s| ==> s[i]
    ensures CountTrue(s) == |s|
  {
    if s != [] {
      AllJoinableJoined(s[..|s| - 1]);
    }
  }
}
