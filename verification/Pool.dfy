/** The worker pool as steps over worker states, one step per critical section. */
module Pool {
  import opened JobQueues
  import opened Options

  /** Pulling: awake and about to look at the queue, first time or after a wait.
      Waiting: blocked in the condition wait. Got: has pulled a job and not yet left the free count.
      Running: between the decrement and the increment of the free count. */
  datatype Worker = Pulling | Waiting | Got(job: Job) | Running(job: Job)

  datatype Pulled = Pulled(worker: nat, job: Job)

  /** accepted and pulled record the history: jobs taken in, and who pulled which. */
  datatype State = State(queue: seq<Job>, workers: seq<Worker>, free: nat,
                         accepted: seq<Job>, pulled: seq<Pulled>)

  ghost predicate Init(s: State, n: nat) {
    && 0 < n < 256 && s.queue == [] && s.free == n && s.accepted == [] && s.pulled == []
    && |s.workers| == n && forall i :: 0 <= i < n ==> s.workers[i] == Pulling
  }

  /** pthread_cond_signal: wakes at least one waiter if there is one. */
  ghost predicate Signal(ws: seq<Worker>, ws': seq<Worker>) {
    && |ws'| == |ws|
    && (forall i :: 0 <= i < |ws| ==> ws'[i] == ws[i] || (ws[i] == Waiting && ws'[i] == Pulling))
    && (Waiting in ws ==> ws' != ws)
  }

  /** threadpool_add_job: both the full and the accepting branch signal. */
  ghost predicate Push(s: State, s': State, job: Job) {
    && Signal(s.workers, s'.workers)
    && s' == if |s.queue| >= N_THREADS_MAX then s.(workers := s'.workers)
             else s.(workers := s'.workers, queue := s.queue + [job], accepted := s.accepted + [job])
  }

  /** pull_job finds the queue empty and waits. */
  ghost predicate Block(s: State, s': State, w: nat) {
    && w < |s.workers| && s.workers[w] == Pulling && s.queue == []
    && s' == s.(workers := s.workers[w := Waiting])
  }

  /** pull_job takes the front of the queue. */
  ghost predicate Pull(s: State, s': State, w: nat) {
    && w < |s.workers| && s.workers[w] == Pulling && s.queue != []
    && s' == s.(workers := s.workers[w := Got(s.queue[0])], queue := s.queue[1..],
                pulled := s.pulled + [Pulled(w, s.queue[0])])
  }

  ghost predicate Spurious(s: State, s': State, w: nat) {
    && w < |s.workers| && s.workers[w] == Waiting && s' == s.(workers := s.workers[w := Pulling])
  }

  /** The 8-bit free count is decremented. */
  ghost predicate Start(s: State, s': State, w: nat) {
    && w < |s.workers| && s.workers[w].Got?
    && s' == s.(workers := s.workers[w := Running(s.workers[w].job)], free := (s.free + 255) % 256)
  }

  /** The job is done: the free count is incremented, and a worker signalled if all are free. */
  ghost predicate Finish(s: State, s': State, w: nat) {
    && w < |s.workers| && s.workers[w].Running?
    && var free := (s.free + 1) % 256;
       var back := s.workers[w := Pulling];
       && (if free == |s.workers| then Signal(back, s'.workers) else s'.workers == back)
       && s' == s.(workers := s'.workers, free := free)
  }

  ghost predicate WorkerStep(s: State, s': State, w: nat) {
    Block(s, s', w) || Pull(s, s', w) || Spurious(s, s', w) || Start(s, s', w) || Finish(s, s', w)
  }

  ghost predicate WorkerNext(s: State, s': State) {
    exists w :: WorkerStep(s, s', w)
  }

  ghost predicate Next(s: State, s': State) {
    WorkerNext(s, s') || exists job :: Push(s, s', job)
  }

  ghost predicate Run(run: seq<State>, n: nat) {
    && run != [] && Init(run[0], n)
    && forall i :: 0 <= i < |run| - 1 ==> Next(run[i], run[i + 1])
  }

  // ---------- counting workers ----------

  ghost function Kind(w: Worker): nat {
    match w case Pulling => 0 case Waiting => 1 case Got(_) => 2 case Running(_) => 3
  }

  ghost function Is(w: Worker, k: nat): nat {
    if Kind(w) == k then 1 else 0
  }

  ghost function Count(ws: seq<Worker>, k: nat): nat {
    if ws == [] then 0 else Count(ws[..|ws| - 1], k) + Is(ws[|ws| - 1], k)
  }

  lemma {:induction false} CountSum(ws: seq<Worker>)
    ensures Count(ws, 0) + Count(ws, 1) + Count(ws, 2) + Count(ws, 3) == |ws|
  {
    if ws != [] {
      CountSum(ws[..|ws| - 1]);
    }
  }

  lemma {:induction false} CountMember(ws: seq<Worker>, i: nat)
    requires i < |ws|
    ensures Count(ws, Kind(ws[i])) > 0
  {
    if i < |ws| - 1 {
      CountMember(ws[..|ws| - 1], i);
    }
  }

  lemma {:induction false} CountWitness(ws: seq<Worker>, k: nat) returns (i: nat)
    requires Count(ws, k) > 0
    ensures i < |ws| && Kind(ws[i]) == k
  {
    if Kind(ws[|ws| - 1]) == k {
      i := |ws| - 1;
    } else {
      i := CountWitness(ws[..|ws| - 1], k);
    }
  }

  lemma {:induction false} CountUpdate(ws: seq<Worker>, i: nat, w: Worker, k: nat)
    requires i < |ws|
    ensures Count(ws[i := w], k) + Is(ws[i], k) == Count(ws, k) + Is(w, k)
  {
    var last := |ws| - 1;
    if i < last {
      CountUpdate(ws[..last], i, w, k);
      assert ws[i := w][..last] == ws[..last][i := w];
    } else {
      assert ws[i := w][..last] == ws[..last];
    }
  }

  /** A signal moves workers from Waiting to Pulling, at least one if any waits. */
  lemma {:induction false} CountSignal(ws: seq<Worker>, ws': seq<Worker>)
    requires |ws'| == |ws|
    requires forall i :: 0 <= i < |ws| ==> ws'[i] == ws[i] || (ws[i] == Waiting && ws'[i] == Pulling)
    ensures Count(ws', 2) == Count(ws, 2) && Count(ws', 3) == Count(ws, 3)
    ensures Count(ws', 0) + Count(ws', 1) == Count(ws, 0) + Count(ws, 1)
    ensures Count(ws', 1) <= Count(ws, 1)
    ensures ws' != ws ==> Count(ws', 1) < Count(ws, 1)
  {
    if ws != [] {
      var last := |ws| - 1;
      CountSignal(ws[..last], ws'[..last]);
      assert ws == ws[..last] + [ws[last]] && ws' == ws'[..last] + [ws'[last]];
    }
  }

  // ---------- safety over every run ----------

  ghost function JobsOf(pulled: seq<Pulled>): seq<Job> {
    if pulled == [] then [] else JobsOf(pulled[..|pulled| - 1]) + [pulled[|pulled| - 1].job]
  }

  /** The job a worker pulled last. */
  ghost function LastPull(pulled: seq<Pulled>, w: nat): Option<Job> {
    if pulled == [] then None else
      var p := pulled[|pulled| - 1];
      if p.worker == w then Some(p.job) else LastPull(pulled[..|pulled| - 1], w)
  }

  /** If any worker is blocked, at least as many workers are on their way to the queue as jobs wait in it. */
  ghost predicate NoLostWakeup(s: State) {
    Waiting in s.workers ==> Count(s.workers, 0) >= |s.queue|
  }

  ghost predicate Inv(s: State, n: nat) {
    && |s.workers| == n && 0 < n < 256 && |s.queue| <= N_THREADS_MAX
    && NoLostWakeup(s)
    && s.free + Count(s.workers, 3) == n
    && s.accepted == JobsOf(s.pulled) + s.queue
    && (forall w :: 0 <= w < n && (s.workers[w].Got? || s.workers[w].Running?) ==>
          LastPull(s.pulled, w) == Some(s.workers[w].job))
  }

  lemma {:induction false} InitInv(s: State, n: nat, k: nat)
    requires Init(s, n) && k <= n
    ensures Count(s.workers[..k], 3) == 0 && (k == n ==> Inv(s, n))
  {
    if k > 0 {
      InitInv(s, n, k - 1);
      assert s.workers[..k][..k - 1] == s.workers[..k - 1];
    }
    assert k == n ==> s.workers[..k] == s.workers;
  }

  lemma SignalWaits(ws: seq<Worker>, ws': seq<Worker>)
    requires Signal(ws, ws')
    ensures Waiting in ws' ==> Waiting in ws && Count(ws', 0) > Count(ws, 0)
    ensures Count(ws', 3) == Count(ws, 3)
  {
    CountSignal(ws, ws');
    if Waiting in ws' {
      var i :| 0 <= i < |ws'| && ws'[i] == Waiting;
      assert ws[i] == Waiting;
    }
  }

  lemma PushInv(s: State, s': State, n: nat, job: Job)
    requires Inv(s, n) && Push(s, s', job)
    ensures Inv(s', n)
  {
    SignalWaits(s.workers, s'.workers);
    assert JobsOf(s.pulled) + s.queue + [job] == JobsOf(s.pulled) + (s.queue + [job]);
  }

  /** Moving one worker changes the counts of the two states involved. */
  lemma Moved(s: State, w: nat, to: Worker)
    requires w < |s.workers|
    ensures forall k: nat :: Count(s.workers[w := to], k) + Is(s.workers[w], k) == Count(s.workers, k) + Is(to, k)
    ensures to != Waiting && Waiting in s.workers[w := to] ==> Waiting in s.workers
  {
    forall k: nat
      ensures Count(s.workers[w := to], k) + Is(s.workers[w], k) == Count(s.workers, k) + Is(to, k)
    {
      CountUpdate(s.workers, w, to, k);
    }
    if to != Waiting && Waiting in s.workers[w := to] {
      var i :| 0 <= i < |s.workers| && s.workers[w := to][i] == Waiting;
      assert s.workers[i] == Waiting;
    }
  }

  lemma PullInv(s: State, s': State, n: nat, w: nat)
    requires Inv(s, n) && Pull(s, s', w)
    ensures Inv(s', n)
  {
    Moved(s, w, Got(s.queue[0]));
    assert s'.pulled[..|s.pulled|] == s.pulled;
    assert s.queue == [s.queue[0]] + s'.queue;
  }

  lemma IdleInv(s: State, s': State, n: nat, w: nat)
    requires Inv(s, n) && (Block(s, s', w) || Spurious(s, s', w))
    ensures Inv(s', n)
  {
    Moved(s, w, s'.workers[w]);
  }

  lemma Decremented(free: nat)
    requires 0 < free < 256
    ensures (free + 255) % 256 == free - 1
  {
  }

  lemma StartInv(s: State, s': State, n: nat, w: nat)
    requires Inv(s, n) && Start(s, s', w)
    ensures Inv(s', n)
  {
    Moved(s, w, Running(s.workers[w].job));
    CountMember(s.workers, w);
    CountSum(s.workers);
    Decremented(s.free);
  }

  lemma FinishInv(s: State, s': State, n: nat, w: nat)
    requires Inv(s, n) && Finish(s, s', w)
    ensures Inv(s', n)
  {
    Moved(s, w, Pulling);
    CountMember(s.workers, w);
    if (s.free + 1) % 256 == n {
      SignalWaits(s.workers[w := Pulling], s'.workers);
    }
  }

  /** Every state of every run keeps the invariant, whatever the interleaving. */
  lemma {:induction false} RunInv(run: seq<State>, n: nat, i: nat)
    requires Run(run, n) && i < |run|
    ensures Inv(run[i], n)
  {
    if i == 0 {
      InitInv(run[0], n, n);
    } else {
      RunInv(run, n, i - 1);
      NextInv(run[i - 1], run[i], n);
    }
  }

  lemma NextInv(s: State, s': State, n: nat)
    requires Inv(s, n) && Next(s, s')
    ensures Inv(s', n)
  {
    hide Inv, Pull, Start, Finish, Block, Spurious, Push;
    if job :| Push(s, s', job) {
      PushInv(s, s', n, job);
    } else {
      var w :| WorkerStep(s, s', w);
      if Pull(s, s', w) {
        PullInv(s, s', n, w);
      } else if Start(s, s', w) {
        StartInv(s, s', n, w);
      } else if Finish(s, s', w) {
        FinishInv(s, s', n, w);
      } else {
        IdleInv(s, s', n, w);
      }
    }
  }

  // ---------- progress ----------

  /** How many worker steps the pool can take before the queue is empty. */
  ghost function Rank(s: State): nat {
    4 * |s.queue| + Count(s.workers, 1) + 2 * Count(s.workers, 2) + Count(s.workers, 3)
  }

  lemma RankDrops(s: State, s': State, w: nat)
    requires WorkerStep(s, s', w) && s.queue != []
    ensures Rank(s') < Rank(s) && |s'.queue| <= |s.queue|
  {
    if Finish(s, s', w) {
      Moved(s, w, Pulling);
      if (s.free + 1) % 256 == |s.workers| {
        CountSignal(s.workers[w := Pulling], s'.workers);
      }
    } else {
      Moved(s, w, s'.workers[w]);
    }
  }

  /** A worker step that is not a wait or a spurious wakeup. */
  ghost predicate Works(s: State, s': State, w: nat) {
    Pull(s, s', w) || Start(s, s', w) || Finish(s, s', w)
  }

  /** With jobs queued some worker can always move: the pool is never stuck with everyone asleep. */
  lemma NeverStuck(s: State, n: nat)
    requires Inv(s, n) && s.queue != []
    ensures exists s', w :: Works(s, s', w)
  {
    CountSum(s.workers);
    var w: nat;
    var s': State;
    if Count(s.workers, 0) > 0 {
      w := CountWitness(s.workers, 0);
      s' := s.(workers := s.workers[w := Got(s.queue[0])], queue := s.queue[1..],
               pulled := s.pulled + [Pulled(w, s.queue[0])]);
      assert Pull(s, s', w);
    } else {
      assert Waiting !in s.workers;
      w := 0;
      CountMember(s.workers, 0);
      if s.workers[0].Got? {
        s' := s.(workers := s.workers[0 := Running(s.workers[0].job)], free := (s.free + 255) % 256);
        assert Start(s, s', 0);
      } else {
        var back := s.workers[0 := Pulling];
        s' := s.(workers := back, free := (s.free + 1) % 256);
        assert Waiting !in back;
        assert Signal(back, back);
        assert Finish(s, s', 0);
      }
    }
    assert Works(s, s', w);
  }

  /** Left alone, the workers empty the queue: no sequence of more than Rank worker steps,
      in any order, leaves jobs queued throughout. */
  lemma {:induction false} QueueDrains(run: seq<State>, i: nat)
    requires i < |run|
    requires forall j :: i <= j < |run| - 1 ==> WorkerNext(run[j], run[j + 1])
    requires forall j :: i <= j < |run| - 1 ==> run[j].queue != []
    ensures |run| - 1 - i <= Rank(run[i])
    decreases |run| - i
  {
    if i + 1 < |run| {
      assert WorkerNext(run[i], run[i + 1]);
      var w :| WorkerStep(run[i], run[i + 1], w);
      RankDrops(run[i], run[i + 1], w);
      QueueDrains(run, i + 1);
    }
  }

  // ---------- the ring buffer behind the queue ----------

  /** The ring buffer holds the queue of the state. */
  ghost predicate Holds(q: JobQueue, s: State)
    reads q, q.queue
  {
    q.Valid() && q.Contents() == s.queue
  }

  /** threadpool_add_job on the ring buffer takes the step; woken are the workers after the signal. */
  method AddJob(q: JobQueue, job: Job, ghost s: State, ghost woken: seq<Worker>, ghost n: nat)
    returns (ret: int, ghost s': State)
    requires Holds(q, s) && Inv(s, n) && Signal(s.workers, woken)
    modifies q, q.queue
    ensures Holds(q, s') && Push(s, s', job) && Inv(s', n) && s'.workers == woken
    ensures ret == 1 <==> s'.accepted == s.accepted + [job]
    ensures ret != 1 ==> ret == -1 && s'.queue == s.queue && s'.accepted == s.accepted
  {
    hide Inv, Signal;
    ret := q.Push(job);
    s' := if ret == 1 then s.(workers := woken, queue := s.queue + [job], accepted := s.accepted + [job])
          else s.(workers := woken);
    PushInv(s, s', n, job);
  }

  /** One pass of pull_job under the lock: with jobs there it takes the oldest, otherwise it waits. */
  method PullJob(q: JobQueue, ghost s: State, ghost w: nat, ghost n: nat) returns (job: Option<Job>, ghost s': State)
    requires Holds(q, s) && Inv(s, n) && w < |s.workers| && s.workers[w] == Pulling
    modifies q
    ensures Holds(q, s') && Inv(s', n)
    ensures job.None? ==> Block(s, s', w)
    ensures job.Some? ==> Pull(s, s', w) && s'.workers[w] == Got(job.value)
  {
    hide Inv;
    job := q.Take();
    if job.None? {
      s' := s.(workers := s.workers[w := Waiting]);
      IdleInv(s, s', n, w);
    } else {
      s' := s.(workers := s.workers[w := Got(s.queue[0])], queue := s.queue[1..],
               pulled := s.pulled + [Pulled(w, s.queue[0])]);
      PullInv(s, s', n, w);
    }
  }
}
