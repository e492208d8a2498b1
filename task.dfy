/**
 * The task runner's queue. A task carries an id, a callable that may be
 * empty, and a paused flag; do_run takes the front task off the queue and
 * re-queues it at the back when it is paused. The task itself is never
 * invoked by do_run.
 */
module Task {
  import opened Wrappers

  /** Task ids are opaque values (a UUID in the system). */
  type Uuid = nat

  /** A task: its id, whether it holds a callable, whether it is paused. */
  datatype Task = Task(id: Uuid, callable: bool, paused: bool)

  /** operator bool: a task is usable iff it holds a callable. */
  predicate Usable(t: Task)
    ensures Usable(t) <==> t.callable
  {
    t.callable
  }

  /** The queue after one do_run on a non-empty queue q. */
  function AfterRun(q: seq<Task>): (r: seq<Task>)
    requires |q| > 0
    ensures Usable(q[0]) && q[0].paused ==> |r| == |q| && multiset(r) == multiset(q)
    ensures !(Usable(q[0]) && q[0].paused) ==> |r| == |q| - 1 && multiset(r) == multiset(q) - multiset{q[0]}
  {
    assert q == [q[0]] + q[1..];
    if !Usable(q[0]) then q[1..]
    else if q[0].paused then q[1..] + [q[0]]
    else q[1..]
  }

  /** The result of do_run: no id for a task without callable, the front
    * task's id otherwise. */
  function RunResult(q: seq<Task>): (r: Option<Uuid>)
    requires |q| > 0
    ensures r.Some? <==> Usable(q[0])
    ensures r.Some? ==> r.value == q[0].id
  {
    if Usable(q[0]) then Some(q[0].id) else None
  }

  /** The queue after k further do_run calls (stopping at an empty queue). */
  function RunTimes(q: seq<Task>, k: nat): (r: seq<Task>)
    ensures |r| <= |q| && multiset(r) <= multiset(q)
    decreases k
  {
    if k == 0 || |q| == 0 then q else RunTimes(AfterRun(q), k - 1)
  }

  predicate AllPaused(q: seq<Task>) {
    forall i :: 0 <= i < |q| ==> Usable(q[i]) && q[i].paused
  }

  /** A queue of paused tasks rotates: after k runs the first k tasks have
    * moved to the back in their order, and after |q| runs the queue is as
    * it was. */
  lemma {:induction false} PausedTasksRotate(q: seq<Task>, k: nat)
    requires AllPaused(q) && k <= |q|
    ensures RunTimes(q, k) == q[k..] + q[..k]
    decreases k
  {
    if k == 0 {
      assert q[0..] + q[..0] == q;
    } else {
      var q' := RotateOnce(q);
      assert RunTimes(q, k) == RunTimes(q', k - 1);
      PausedTasksRotate(q', k - 1);
      RotateShift(q, k);
    }
  }

  /** One run on a queue of paused tasks moves the front to the back. */
  lemma RotateOnce(q: seq<Task>) returns (q': seq<Task>)
    requires AllPaused(q) && |q| > 0
    ensures q' == AfterRun(q) == q[1..] + [q[0]]
    ensures AllPaused(q')
  {
    q' := q[1..] + [q[0]];
    forall i | 0 <= i < |q'|
      ensures Usable(q'[i]) && q'[i].paused
    {
      if i < |q| - 1 { assert q'[i] == q[i + 1]; } else { assert q'[i] == q[0]; }
    }
  }

  lemma RotateShift(q: seq<Task>, k: nat)
    requires 0 < k <= |q|
    ensures (q[1..] + [q[0]])[k - 1..] + (q[1..] + [q[0]])[..k - 1] == q[k..] + q[..k]
  {
    var q' := q[1..] + [q[0]];
    assert q'[k - 1..] == q[k..] + [q[0]];
    assert q'[..k - 1] == q[1..k];
    assert [q[0]] + q[1..k] == q[..k];
  }

  /** A task that is not paused, or holds no callable, leaves the queue for
    * good: k more runs never bring it back unless it occurs again. */
  lemma {:induction false} DroppedTaskGone(q: seq<Task>, k: nat)
    requires |q| > 0 && !(Usable(q[0]) && q[0].paused)
    requires q[0] !in q[1..]
    ensures q[0] !in RunTimes(AfterRun(q), k)
  {
    RunTimesSubset(AfterRun(q), k);
  }

  /** Runs only remove tasks or move them: nothing new appears. */
  lemma RunTimesSubset(q: seq<Task>, k: nat)
    ensures forall t :: t in RunTimes(q, k) ==> t in q
  {
    var r := RunTimes(q, k);
    forall t | t in r
      ensures t in q
    {
      assert multiset(r)[t] > 0;
    }
  }

  class TaskRunner {
    /** The queue, front first. */
    var tasks: seq<Task>

    constructor ()
      ensures tasks == []
    {
      tasks := [];
    }

    /** enqueue: append at the back. */
    method Enqueue(t: Task)
      modifies this
      ensures tasks == old(tasks) + [t]
    {
      tasks := tasks + [t];
    }

    /** suspend: also appends at the back. */
    method Suspend(t: Task)
      modifies this
      ensures tasks == old(tasks) + [t]
    {
      tasks := tasks + [t];
    }

    /** do_run: take the front task; drop it when it holds no callable;
      * re-queue it when paused; return its id. */
    method DoRun() returns (r: Option<Uuid>)
      requires |tasks| > 0
      modifies this
      ensures tasks == AfterRun(old(tasks))
      ensures r == RunResult(old(tasks))
    {
      var task := tasks[0];
      tasks := tasks[1..];
      if !Usable(task) {
        return None;
      }
      var taskId := task.id;
      if task.paused {
        Suspend(task);
      }
      r := Some(taskId);
    }
  }
}
