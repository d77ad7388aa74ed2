/** The ring buffer of pending jobs. */
module JobQueues {
  import opened Options

  const N_THREADS_MAX := 128

  /** A job is known by its pointer. */
  type Job = nat

  /** The array index of the job i places behind the front. */
  ghost function Slot(front: nat, i: nat): nat {
    (front + i) % N_THREADS_MAX
  }

  lemma SlotsDiffer(front: nat, i: nat, j: nat)
    requires i < j < N_THREADS_MAX
    ensures Slot(front, i) != Slot(front, j)
  {
  }

  lemma SlotAfterBack(front: nat, len: nat)
    ensures ((front + len + N_THREADS_MAX - 1) % N_THREADS_MAX + 1) % N_THREADS_MAX == Slot(front, len)
    ensures (front + (len + 1) + N_THREADS_MAX - 1) % N_THREADS_MAX == Slot(front, len)
  {
  }

  lemma SlotAfterFront(front: nat, i: nat)
    ensures Slot((front + 1) % N_THREADS_MAX, i) == Slot(front, i + 1)
  {
  }

  lemma BackStays(front: nat, len: nat)
    requires len > 0
    ensures (front + len + N_THREADS_MAX - 1) % N_THREADS_MAX
            == ((front + 1) % N_THREADS_MAX + (len - 1) + N_THREADS_MAX - 1) % N_THREADS_MAX
  {
  }

  /** Indices run modulo 128; front is the oldest job, back the newest. */
  class JobQueue {
    const queue: array<Job>
    var len: nat
    var front: nat
    var back: nat

    ghost predicate Valid()
      reads this
    {
      && queue.Length == N_THREADS_MAX && len <= N_THREADS_MAX
      && front < N_THREADS_MAX && back == (front + len + N_THREADS_MAX - 1) % N_THREADS_MAX
    }

    /** The jobs waiting, oldest first. */
    ghost function Contents(): (s: seq<Job>)
      requires Valid()
      reads this, queue
      ensures |s| == len
    {
      seq(len, i requires 0 <= i < len reads this, queue requires Valid() => queue[Slot(front, i)])
    }

    constructor ()
      ensures Valid() && Contents() == []
    {
      queue := new Job[N_THREADS_MAX](_ => 0);
      front, back, len := 0, N_THREADS_MAX - 1, 0;
    }

    method Push(job: Job) returns (ret: int)
      requires Valid()
      modifies this, queue
      ensures Valid()
      ensures ret == if |old(Contents())| < 128 then 1 else -1
      ensures Contents() == if ret == 1 then old(Contents()) + [job] else old(Contents())
    {
      hide Slot;
      if len >= N_THREADS_MAX {
        return -1;
      }
      SlotAfterBack(front, len);
      forall i | 0 <= i < len
        ensures Slot(front, i) != Slot(front, len)
      {
        SlotsDiffer(front, i, len);
      }
      back := (back + 1) % N_THREADS_MAX;
      queue[back] := job;
      len := len + 1;
      return 1;
    }

    method Front() returns (job: Option<Job>)
      requires Valid()
      ensures job == if Contents() == [] then None else Some(Contents()[0])
    {
      if len == 0 {
        return None;
      }
      return Some(queue[front]);
    }

    method Pop()
      requires Valid()
      modifies this
      ensures Valid()
      ensures Contents() == if old(Contents()) == [] then [] else old(Contents())[1..]
    {
      hide Slot;
      if len == 0 {
        return;
      }
      BackStays(front, len);
      var next := (front + 1) % N_THREADS_MAX;
      forall i | 0 <= i < len
        ensures Slot(next, i) == Slot(front, i + 1)
      {
        SlotAfterFront(front, i);
      }
      front := next;
      len := len - 1;
    }

    /** The locked part of pull_job once the queue is not empty. */
    method Take() returns (job: Option<Job>)
      requires Valid()
      modifies this
      ensures Valid()
      ensures old(Contents()) == [] ==> job == None && Contents() == []
      ensures old(Contents()) != [] ==> job.Some? && old(Contents()) == [job.value] + Contents()
    {
      job := None;
      if len != 0 {
        job := Front();
        Pop();
      }
    }
  }
}
