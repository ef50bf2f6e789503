/**
 The thread pool of utils/thread_pool.c as a step relation over any number of workers,
 submitters and waiters.

 A step is one access to shared memory, or one critical section whose lock protects
 everything it touches.  `jobqueue_push` and `jobqueue_pull` hold `rwmutex` across two
 steps, because they call `bsem_post` while holding it; `thpool_wait` holds `thcount_lock`
 across its two reads, the first of which (`jobqueue.len`) is not protected by that lock.
 */
module ThreadPool {
  import opened Options
  import opened Numbers

  /** Where a pool thread stands in `thread_do`.  Jobs are named by their submission index. */
  datatype WorkerPc =
    | AtSem                         // in bsem_wait, about to test v
    | Asleep                        // in bsem_wait, blocked on the condition variable
    | Took                          // has set v to 0
    | Counted                       // has raised num_threads_working
    | Posting(job: nat)             // dequeued, more jobs left: holds rwmutex, owes a bsem_post
    | Running(pulled: Option<nat>)  // jobqueue_pull has returned (NULL is None)
    | Finished                      // has not lowered num_threads_working yet

  /** Where a caller of `thpool_wait` stands; `mark` is the number of jobs added before the call. */
  datatype WaiterPc =
    | Entering(mark: nat)     // called or woken, waiting for thcount_lock
    | ReadsLen(mark: nat)     // holds thcount_lock
    | ReadsWorking(mark: nat) // holds thcount_lock and has seen len == 0
    | GoesToSleep(mark: nat)  // holds thcount_lock and has seen a non-zero value
    | Sleeping(mark: nat)     // in pthread_cond_wait
    | Returned(mark: nat)

  datatype RwLock = RwFree | PushOwesPost | PullOwesPost(w: nat)

  datatype State = State(
    submitted: nat,              // jobs linked into the queue so far
    queue: seq<nat>,
    len: int,                    // jobqueue.len
    sem: int,                    // has_jobs.v
    working: int,                // num_threads_working
    countLock: Option<nat>,      // the waiter that holds thcount_lock
    rw: RwLock,                  // who holds rwmutex between two steps
    workers: map<nat, WorkerPc>,
    waiters: map<nat, WaiterPc>,
    pulled: seq<nat>,            // every job handed out, in order
    finished: set<nat>)          // every job whose function has returned

  datatype Step =
    | PushLink
    | PushPost(wakes: Option<nat>)
    | SemTake(w: nat)
    | SemSleep(w: nat)
    | SemSpuriousWake(w: nat)
    | Count(w: nat)
    | Pull(w: nat)
    | PullPost(w: nat, wakes: Option<nat>)
    | RunJob(w: nat)
    | Uncount(w: nat, wakes: Option<nat>)
    | WaitCall(i: nat)
    | WaitLock(i: nat)
    | WaitReadLen(i: nat)
    | WaitReadWorking(i: nat)
    | WaitSleep(i: nat)
    | WaitSpuriousWake(i: nat)

  predicate Init(s: State) {
    && s.submitted == 0 && s.queue == [] && s.len == 0 && s.sem == 0 && s.working == 0
    && s.countLock == None && s.rw == RwFree && s.waiters == map[]
    && s.pulled == [] && s.finished == {}
    && forall w :: w in s.workers ==> s.workers[w] == AtSem
  }

  // ----- what a signal may do

  /** `pthread_cond_signal` on the semaphore wakes one blocked worker if there is one. */
  predicate SignalsWorker(s: State, wakes: Option<nat>) {
    match wakes
    case Some(w) => w in s.workers && s.workers[w] == Asleep
    case None => forall w :: w in s.workers ==> s.workers[w] != Asleep
  }

  /** `pthread_cond_signal` on `threads_all_idle` wakes one sleeping waiter if there is one. */
  predicate SignalsWaiter(s: State, wakes: Option<nat>) {
    match wakes
    case Some(i) => i in s.waiters && s.waiters[i].Sleeping?
    case None => forall i :: i in s.waiters ==> !s.waiters[i].Sleeping?
  }

  function WakeWorker(s: State, wakes: Option<nat>): State {
    if wakes.Some? then s.(workers := s.workers[wakes.value := AtSem]) else s
  }

  // ----- the steps

  predicate Enabled(s: State, a: Step) {
    match a
    case PushLink => s.rw == RwFree
    case PushPost(k) => s.rw == PushOwesPost && SignalsWorker(s, k)
    case SemTake(w) => w in s.workers && s.workers[w] == AtSem && s.sem == 1
    case SemSleep(w) => w in s.workers && s.workers[w] == AtSem && s.sem != 1
    case SemSpuriousWake(w) => w in s.workers && s.workers[w] == Asleep
    case Count(w) => w in s.workers && s.workers[w] == Took && s.countLock == None
    case Pull(w) => w in s.workers && s.workers[w] == Counted && s.rw == RwFree
    case PullPost(w, k) => w in s.workers && s.workers[w].Posting? && s.rw == PullOwesPost(w) && SignalsWorker(s, k)
    case RunJob(w) => w in s.workers && s.workers[w].Running?
    case Uncount(w, k) =>
      && w in s.workers && s.workers[w] == Finished && s.countLock == None
      && (if s.working == 1 then SignalsWaiter(s, k) else k == None)
    case WaitCall(i) => i in s.waiters ==> s.waiters[i].Returned?
    case WaitLock(i) => i in s.waiters && s.waiters[i].Entering? && s.countLock == None
    case WaitReadLen(i) => i in s.waiters && s.waiters[i].ReadsLen?
    case WaitReadWorking(i) => i in s.waiters && s.waiters[i].ReadsWorking?
    case WaitSleep(i) => i in s.waiters && s.waiters[i].GoesToSleep?
    case WaitSpuriousWake(i) => i in s.waiters && s.waiters[i].Sleeping?
  }

  function Do(s: State, a: Step): State
    requires Enabled(s, a)
  {
    match a
    case PushLink =>
      s.(submitted := s.submitted + 1, queue := s.queue + [s.submitted], len := s.len + 1, rw := PushOwesPost)
    case PushPost(k) => WakeWorker(s.(sem := 1, rw := RwFree), k)
    case SemTake(w) => s.(sem := 0, workers := s.workers[w := Took])
    case SemSleep(w) => s.(workers := s.workers[w := Asleep])
    case SemSpuriousWake(w) => s.(workers := s.workers[w := AtSem])
    case Count(w) => s.(working := s.working + 1, workers := s.workers[w := Counted])
    case Pull(w) => DoPull(s, w)
    case PullPost(w, k) =>
      WakeWorker(s.(sem := 1, rw := RwFree, workers := s.workers[w := Running(Some(s.workers[w].job))]), k)
    case RunJob(w) =>
      var job := s.workers[w].pulled;
      s.(finished := if job.Some? then s.finished + {job.value} else s.finished,
         workers := s.workers[w := Finished])
    case Uncount(w, k) =>
      var t := s.(working := s.working - 1, workers := s.workers[w := AtSem]);
      if k.Some? && k.value in s.waiters
      then t.(waiters := s.waiters[k.value := Entering(s.waiters[k.value].mark)]) else t
    case WaitCall(i) => s.(waiters := s.waiters[i := Entering(s.submitted)])
    case WaitLock(i) => s.(countLock := Some(i), waiters := s.waiters[i := ReadsLen(s.waiters[i].mark)])
    case WaitReadLen(i) =>
      var mark := s.waiters[i].mark;
      s.(waiters := s.waiters[i := if s.len == 0 then ReadsWorking(mark) else GoesToSleep(mark)])
    case WaitReadWorking(i) =>
      var mark := s.waiters[i].mark;
      if s.working == 0 then s.(countLock := None, waiters := s.waiters[i := Returned(mark)])
      else s.(waiters := s.waiters[i := GoesToSleep(mark)])
    case WaitSleep(i) => s.(countLock := None, waiters := s.waiters[i := Sleeping(s.waiters[i].mark)])
    case WaitSpuriousWake(i) => s.(waiters := s.waiters[i := Entering(s.waiters[i].mark)])
  }

  /** `jobqueue_pull`: nothing, the last job, or the front job with a bsem_post still owed. */
  function DoPull(s: State, w: nat): State
    requires Enabled(s, Pull(w))
  {
    if s.len == 0 || s.queue == [] then s.(workers := s.workers[w := Running(None)])
    else
      var job := s.queue[0];
      var t := s.(queue := s.queue[1..], len := s.len - 1, pulled := s.pulled + [job]);
      if s.len == 1 then t.(workers := s.workers[w := Running(Some(job))])
      else t.(rw := PullOwesPost(w), workers := s.workers[w := Posting(job)])
  }

  // ----- runs

  predicate ValidRun(s: State, run: seq<Step>)
    decreases |run|
  {
    run == [] || (Enabled(s, run[0]) && ValidRun(Do(s, run[0]), run[1..]))
  }

  function After(s: State, run: seq<Step>): State
    requires ValidRun(s, run)
    decreases |run|
  {
    if run == [] then s else After(Do(s, run[0]), run[1..])
  }

  // ----- the invariant

  predicate IsCounted(pc: WorkerPc) { pc.Counted? || pc.Posting? || pc.Running? || pc.Finished? }

  function CountedSet(workers: map<nat, WorkerPc>): set<nat> {
    set w | w in workers && IsCounted(workers[w])
  }

  predicate Holds(pc: WorkerPc, job: nat) { pc == Posting(job) || pc == Running(Some(job)) }

  predicate HasCountLock(pc: WaiterPc) { pc.ReadsLen? || pc.ReadsWorking? || pc.GoesToSleep? }

  function Jobs(n: nat): (js: seq<nat>)
    ensures |js| == n && forall k :: 0 <= k < n ==> js[k] == k
  {
    seq(n, i requires 0 <= i < n => i)
  }

  predicate QueueInOrder(s: State) {
    s.len == |s.queue| && s.pulled + s.queue == Jobs(s.submitted)
  }

  ghost predicate CountsWorkers(s: State) { s.working == |CountedSet(s.workers)| }

  /** A pulled job has finished or is held by a thread that is counted in num_threads_working. */
  ghost predicate PulledJobsAccounted(s: State) {
    forall k {:trigger k in s.finished} :: 0 <= k < |s.pulled| ==>
      k in s.finished || exists w :: w in s.workers && Holds(s.workers[w], k)
  }

  ghost predicate LocksHeld(s: State) {
    && (forall w :: w in s.workers ==> (s.workers[w].Posting? <==> s.rw == PullOwesPost(w)))
    && (s.rw.PullOwesPost? ==> s.rw.w in s.workers)
    && (forall i :: i in s.waiters ==> (HasCountLock(s.waiters[i]) <==> s.countLock == Some(i)))
    && (s.countLock.Some? ==> s.countLock.value in s.waiters)
  }

  ghost predicate WaitersKnow(s: State) {
    forall i :: i in s.waiters ==>
      && s.waiters[i].mark <= s.submitted
      && (s.waiters[i].ReadsWorking? ==> s.waiters[i].mark <= |s.pulled|)
      && (s.waiters[i].Returned? ==> forall k :: 0 <= k < s.waiters[i].mark ==> k in s.finished)
  }

  /** Queued work is announced: v is 1, a post is owed, or a worker took v and has not pulled. */
  ghost predicate WorkAnnounced(s: State) {
    s.queue != [] ==>
      || s.sem == 1
      || s.rw != RwFree
      || exists w :: w in s.workers && (s.workers[w] == Took || s.workers[w] == Counted)
  }

  /** A raised semaphore is never left to sleepers alone. */
  ghost predicate RaisedSemIsSeen(s: State) {
    && 0 <= s.sem <= 1
    && (s.sem == 1 && (exists w :: w in s.workers && s.workers[w] == Asleep) ==>
          exists w :: w in s.workers && s.workers[w] == AtSem)
  }

  ghost predicate Inv(s: State) {
    && QueueInOrder(s) && CountsWorkers(s) && PulledJobsAccounted(s) && LocksHeld(s)
    && WaitersKnow(s) && WorkAnnounced(s) && RaisedSemIsSeen(s)
  }

  lemma InitInv(s: State)
    requires Init(s)
    ensures Inv(s)
  {
    assert CountedSet(s.workers) == {};
  }

  function Tally(pc: WorkerPc): nat { if IsCounted(pc) then 1 else 0 }

  lemma CountedSetUpdate(workers: map<nat, WorkerPc>, w: nat, pc: WorkerPc)
    requires w in workers
    ensures |CountedSet(workers[w := pc])| == |CountedSet(workers)| - Tally(workers[w]) + Tally(pc)
  {
    var rest := CountedSet(workers) - {w};
    assert CountedSet(workers) == if IsCounted(workers[w]) then rest + {w} else rest;
    assert CountedSet(workers[w := pc]) == if IsCounted(pc) then rest + {w} else rest;
  }

  lemma StepKeepsCounts(s: State, a: Step)
    requires CountsWorkers(s) && Enabled(s, a)
    ensures CountsWorkers(Do(s, a))
  {
    match a
    case PushPost(k) => WakeKeepsCounted(s.workers, k);
    case SemTake(w) => CountedSetUpdate(s.workers, w, Took);
    case SemSleep(w) => CountedSetUpdate(s.workers, w, Asleep);
    case SemSpuriousWake(w) => CountedSetUpdate(s.workers, w, AtSem);
    case Count(w) => CountedSetUpdate(s.workers, w, Counted);
    case Pull(w) => PullKeepsCounted(s, w);
    case PullPost(w, k) =>
      CountedSetUpdate(s.workers, w, Running(Some(s.workers[w].job)));
      WakeKeepsCounted(s.workers[w := Running(Some(s.workers[w].job))], k);
    case RunJob(w) => CountedSetUpdate(s.workers, w, Finished);
    case Uncount(w, _) => CountedSetUpdate(s.workers, w, AtSem);
    case _ =>
  }

  lemma WakeKeepsCounted(workers: map<nat, WorkerPc>, k: Option<nat>)
    requires k.Some? ==> k.value in workers && workers[k.value] == Asleep
    ensures k.Some? ==> |CountedSet(workers[k.value := AtSem])| == |CountedSet(workers)|
  {
    if k.Some? { CountedSetUpdate(workers, k.value, AtSem); }
  }

  lemma PullKeepsCounted(s: State, w: nat)
    requires Enabled(s, Pull(w))
    ensures |CountedSet(DoPull(s, w).workers)| == |CountedSet(s.workers)|
    ensures DoPull(s, w).working == s.working
  {
    CountedSetUpdate(s.workers, w, DoPull(s, w).workers[w]);
  }

  lemma StepKeepsOrder(s: State, a: Step)
    requires Inv(s) && Enabled(s, a)
    ensures QueueInOrder(Do(s, a))
  {
    var t := Do(s, a);
    if a.PushLink? {
      assert t.pulled + t.queue == (s.pulled + s.queue) + [s.submitted];
    } else if a.Pull? && s.queue != [] {
      assert t.pulled + t.queue == s.pulled + s.queue;
    }
  }

  lemma StepKeepsJobs(s: State, a: Step)
    requires Inv(s) && Enabled(s, a)
    ensures PulledJobsAccounted(Do(s, a))
  {
    var t := Do(s, a);
    forall k | 0 <= k < |t.pulled| && k !in t.finished
      ensures exists w :: w in t.workers && Holds(t.workers[w], k)
    {
      if k < |s.pulled| {
        assert k !in s.finished;
        var w :| w in s.workers && Holds(s.workers[w], k);
        assert Holds(t.workers[w], k);
      } else {
        assert (s.pulled + s.queue)[k] == k;
        assert a.Pull? && t.pulled[k] == k && Holds(t.workers[a.w], k);
      }
    }
  }

  lemma StepKeepsLocks(s: State, a: Step)
    requires Inv(s) && Enabled(s, a)
    ensures LocksHeld(Do(s, a))
  {
    hide CountsWorkers, PulledJobsAccounted, WaitersKnow, QueueInOrder, WorkAnnounced, RaisedSemIsSeen;
  }

  /** With no thread counted, every job pulled so far has finished. */
  lemma IdlePoolHasFinished(s: State)
    requires Inv(s) && s.working == 0
    ensures forall k :: 0 <= k < |s.pulled| ==> k in s.finished
  {
    forall k | 0 <= k < |s.pulled|
      ensures k in s.finished
    {
      if k !in s.finished {
        var w :| w in s.workers && Holds(s.workers[w], k);
        HolderIsCounted(s, w, k);
        assert false;
      }
    }
  }

  lemma HolderIsCounted(s: State, w: nat, k: nat)
    requires CountsWorkers(s) && w in s.workers && Holds(s.workers[w], k)
    ensures s.working > 0
  {
    assert w in CountedSet(s.workers);
  }

  lemma StepKeepsWaiters(s: State, a: Step)
    requires Inv(s) && Enabled(s, a)
    ensures WaitersKnow(Do(s, a))
  {
    var t := Do(s, a);
    assert s.finished <= t.finished && |s.pulled| <= |t.pulled| && s.submitted <= t.submitted;
    if a.WaitReadLen? && s.len == 0 {
      assert |s.pulled + s.queue| == s.submitted;
    } else if a.WaitReadWorking? && s.working == 0 {
      IdlePoolHasFinished(s);
    }
  }

  lemma StepKeepsWakeups(s: State, a: Step)
    requires Inv(s) && Enabled(s, a)
    ensures WorkAnnounced(Do(s, a)) && RaisedSemIsSeen(Do(s, a))
  {
    hide Inv, Enabled, Do, WorkAnnounced, RaisedSemIsSeen;
    StepKeepsAnnounced(s, a);
    StepKeepsSeen(s, a);
  }

  lemma StepKeepsAnnounced(s: State, a: Step)
    requires Inv(s) && Enabled(s, a)
    ensures WorkAnnounced(Do(s, a))
  {
    hide CountsWorkers, PulledJobsAccounted, WaitersKnow;
    var t := Do(s, a);
    if t.queue != [] && t.sem != 1 && t.rw == RwFree {
      if a.SemTake? { assert t.workers[a.w] == Took; }
      else if a.Count? { assert t.workers[a.w] == Counted; }
      else {
        assert s.queue != [] && s.sem != 1 && s.rw == RwFree;
        var w :| w in s.workers && (s.workers[w] == Took || s.workers[w] == Counted);
        assert t.workers[w] == s.workers[w];
      }
    }
  }

  lemma StepKeepsSeen(s: State, a: Step)
    requires Inv(s) && Enabled(s, a)
    ensures RaisedSemIsSeen(Do(s, a))
  {
    hide CountsWorkers, PulledJobsAccounted, WaitersKnow, QueueInOrder, WorkAnnounced;
    var t := Do(s, a);
    if t.sem == 1 && exists w :: w in t.workers && t.workers[w] == Asleep {
      var w :| w in t.workers && t.workers[w] == Asleep;
      match a
      case PushPost(k) => assert s.workers[w] == Asleep; assert t.workers[k.value] == AtSem;
      case PullPost(_, k) => assert s.workers[w] == Asleep; assert t.workers[k.value] == AtSem;
      case SemSpuriousWake(v) => assert t.workers[v] == AtSem;
      case Uncount(v, _) => assert t.workers[v] == AtSem;
      case SemTake(_) =>
      case SemSleep(_) =>
      case _ =>
        assert s.workers[w] == Asleep;
        var v :| v in s.workers && s.workers[v] == AtSem;
        assert t.workers[v] == AtSem;
    }
  }

  lemma StepKeepsInv(s: State, a: Step)
    requires Inv(s) && Enabled(s, a)
    ensures Inv(Do(s, a))
  {
    StepKeepsOrder(s, a);
    StepKeepsCounts(s, a);
    StepKeepsJobs(s, a);
    StepKeepsLocks(s, a);
    StepKeepsWaiters(s, a);
    StepKeepsWakeups(s, a);
  }

  lemma {:induction false} RunKeepsInv(s: State, run: seq<Step>)
    requires Inv(s) && ValidRun(s, run)
    ensures Inv(After(s, run))
    decreases |run|
  {
    if run != [] {
      StepKeepsInv(s, run[0]);
      RunKeepsInv(Do(s, run[0]), run[1..]);
    }
  }

  // ----- main results

  /** In every interleaving jobs leave the queue in submission order, each at most once. */
  lemma JobsPulledOnceInOrder(s: State, run: seq<Step>)
    requires Init(s) && ValidRun(s, run)
    ensures var t := After(s, run);
            && |t.pulled| <= t.submitted
            && t.pulled == Jobs(|t.pulled|)
            && t.queue == Jobs(t.submitted)[|t.pulled|..]
  {
    InitInv(s);
    RunKeepsInv(s, run);
    var t := After(s, run);
    assert t.pulled == (t.pulled + t.queue)[..|t.pulled|];
    assert t.queue == (t.pulled + t.queue)[|t.pulled|..];
  }

  /** While waiter `i` does not call again, its mark stays what it was at the call. */
  lemma {:induction false} MarkStays(s: State, run: seq<Step>, i: nat)
    requires ValidRun(s, run) && i in s.waiters
    requires WaitCall(i) !in run
    ensures i in After(s, run).waiters && After(s, run).waiters[i].mark == s.waiters[i].mark
    decreases |run|
  {
    if run != [] {
      assert run[0] in run && forall a :: a in run[1..] ==> a in run;
      MarkStays(Do(s, run[0]), run[1..], i);
    }
  }

  lemma {:induction false} RunSplits(s: State, run: seq<Step>, rest: seq<Step>)
    requires ValidRun(s, run + rest)
    ensures ValidRun(s, run) && ValidRun(After(s, run), rest)
    ensures After(s, run + rest) == After(After(s, run), rest)
    decreases |run|
  {
    if run == [] {
      assert run + rest == rest;
    } else {
      assert (run + rest)[1..] == run[1..] + rest;
      RunSplits(Do(s, run[0]), run[1..], rest);
    }
  }

  /**
   `thpool_wait` returns only after every job added before the call has finished: in any
   run `before`, the call, then `during`, if the waiter has returned then all jobs that were
   submitted at the call are finished.
   */
  lemma WaitReturnsAfterEarlierJobs(s: State, before: seq<Step>, i: nat, during: seq<Step>)
    requires Init(s) && ValidRun(s, before + [WaitCall(i)] + during)
    requires WaitCall(i) !in during
    requires i in After(s, before + [WaitCall(i)] + during).waiters
    requires After(s, before + [WaitCall(i)] + during).waiters[i].Returned?
    ensures ValidRun(s, before)
    ensures forall k :: 0 <= k < After(s, before).submitted ==>
              k in After(s, before + [WaitCall(i)] + during).finished
  {
    assert before + [WaitCall(i)] + during == before + ([WaitCall(i)] + during);
    RunSplits(s, before, [WaitCall(i)] + during);
    var c := After(s, before);
    assert ([WaitCall(i)] + during)[1..] == during;
    var d := Do(c, WaitCall(i));
    MarkStays(d, during, i);
    InitInv(s);
    RunKeepsInv(s, before + [WaitCall(i)] + during);
  }

  /** Steps the pool takes by itself: not a new submission, a new wait, or a spurious wake-up. */
  predicate Internal(a: Step) {
    !a.PushLink? && !a.WaitCall? && !a.SemSpuriousWake? && !a.WaitSpuriousWake?
  }

  lemma SomeWorkerToSignal(s: State) returns (k: Option<nat>)
    ensures SignalsWorker(s, k)
  {
    if w :| w in s.workers && s.workers[w] == Asleep { k := Some(w); } else { k := None; }
  }

  lemma SomeWaiterToSignal(s: State) returns (k: Option<nat>)
    ensures SignalsWaiter(s, k)
  {
    if i :| i in s.waiters && s.waiters[i].Sleeping? { k := Some(i); } else { k := None; }
  }

  /** The waiter that holds thcount_lock can move. */
  lemma LockHolderMoves(s: State) returns (a: Step)
    requires LocksHeld(s) && s.countLock.Some?
    ensures Internal(a) && Enabled(s, a)
    ensures a in [WaitReadLen(s.countLock.value), WaitReadWorking(s.countLock.value), WaitSleep(s.countLock.value)]
  {
    var i := s.countLock.value;
    a := match s.waiters[i]
      case ReadsLen(_) => WaitReadLen(i)
      case ReadsWorking(_) => WaitReadWorking(i)
      case _ => WaitSleep(i);
  }

  /** A step of worker `w`. */
  predicate StepOf(a: Step, w: nat) {
    || a == SemTake(w) || a == SemSleep(w) || a == Count(w) || a == Pull(w)
    || (a.PullPost? && a.w == w) || a == RunJob(w) || (a.Uncount? && a.w == w)
  }

  /** A step by which the holder of the lock that worker `w` needs next goes on. */
  predicate StepOfHolder(s: State, a: Step, w: nat)
    requires w in s.workers
  {
    match s.workers[w]
    case Counted => s.rw != RwFree && (a.PushPost? || a.PullPost?)
    case Took => s.countLock.Some? && a in [WaitReadLen(s.countLock.value), WaitReadWorking(s.countLock.value), WaitSleep(s.countLock.value)]
    case Finished => s.countLock.Some? && a in [WaitReadLen(s.countLock.value), WaitReadWorking(s.countLock.value), WaitSleep(s.countLock.value)]
    case _ => false
  }

  /** A worker that is neither asleep nor in bsem_wait can move, or the holder of the lock that it needs can. */
  lemma BusyWorkerMoves(s: State, w: nat) returns (a: Step)
    requires Inv(s) && w in s.workers && s.workers[w] != AtSem && s.workers[w] != Asleep
    ensures Internal(a) && Enabled(s, a) && (StepOf(a, w) || StepOfHolder(s, a, w))
  {
    match s.workers[w]
    case Took => if s.countLock == None { a := Count(w); } else { a := LockHolderMoves(s); }
    case Counted =>
      var k := SomeWorkerToSignal(s);
      a := if s.rw == RwFree then Pull(w) else if s.rw == PushOwesPost then PushPost(k) else PullPost(s.rw.w, k);
    case Posting(_) =>
      var k := SomeWorkerToSignal(s);
      a := PullPost(w, k);
    case Running(_) => a := RunJob(w);
    case Finished =>
      var k := SomeWaiterToSignal(s);
      if s.countLock == None { a := Uncount(w, if s.working == 1 then k else None); } else { a := LockHolderMoves(s); }
  }

  /** With a job queued, some step of the pool is possible. */
  lemma QueuedJobMoves(t: State) returns (a: Step)
    requires Inv(t) && t.queue != [] && t.workers != map[]
    ensures Internal(a) && Enabled(t, a)
  {
    if w :| w in t.workers && t.workers[w] != AtSem && t.workers[w] != Asleep {
      a := BusyWorkerMoves(t, w);
    } else {
      assert forall w :: w in t.workers ==> t.workers[w] == AtSem || t.workers[w] == Asleep;
      var kw := SomeWorkerToSignal(t);
      if t.rw == PushOwesPost { return PushPost(kw); }
      assert t.rw == RwFree;
      assert t.sem == 1;
      var w :| w in t.workers;
      if t.workers[w] == AtSem { return SemTake(w); }
      var v :| v in t.workers && t.workers[v] == AtSem;
      a := SemTake(v);
    }
  }

  /**
   No lost wake-up for workers: in every reachable state with jobs queued, v is 1, or a
   push or pull is about to raise it, or a worker has taken it and not yet pulled; and a
   pool with at least one thread can then always take a step of its own.
   */
  lemma QueuedJobsAreServed(s: State, run: seq<Step>) returns (a: Step)
    requires Init(s) && ValidRun(s, run)
    requires After(s, run).queue != [] && After(s, run).workers != map[]
    ensures WorkAnnounced(After(s, run))
    ensures Internal(a) && Enabled(After(s, run), a)
  {
    InitInv(s);
    RunKeepsInv(s, run);
    a := QueuedJobMoves(After(s, run));
  }

  // ----- the pool comes to rest

  /** How far a worker is from being asleep again, counting what it may still wake. */
  function WorkerRank(pc: WorkerPc): (r: nat)
    ensures r <= 10
  {
    match pc
    case Took => 10
    case Counted => 9
    case Posting(_) => 8
    case Running(_) => 7
    case Finished => 6
    case AtSem => 1
    case Asleep => 0
  }

  function WaiterRank(pc: WaiterPc): (r: nat)
    ensures r <= 4
  {
    match pc
    case Entering(_) => 4
    case ReadsLen(_) => 3
    case ReadsWorking(_) => 2
    case GoesToSleep(_) => 1
    case _ => 0
  }

  /** The threads whose rank is at least `r`. */
  function AtLeast<T>(threads: map<nat, T>, rank: T -> nat, r: nat): set<nat> {
    set w | w in threads && rank(threads[w]) >= r
  }

  /** The sum of the ranks, each one cut at `r`. */
  function Total<T>(threads: map<nat, T>, rank: T -> nat, r: nat): nat {
    if r == 0 then 0 else |AtLeast(threads, rank, r)| + Total(threads, rank, r - 1)
  }

  lemma {:induction false} TotalUpdate<T>(threads: map<nat, T>, rank: T -> nat, r: nat, w: nat, pc: T)
    requires w in threads
    ensures Total(threads[w := pc], rank, r) == Total(threads, rank, r) - Min(rank(threads[w]), r) + Min(rank(pc), r)
  {
    if r > 0 {
      TotalUpdate(threads, rank, r - 1, w, pc);
      var rest := AtLeast(threads, rank, r) - {w};
      assert AtLeast(threads, rank, r) == if rank(threads[w]) >= r then rest + {w} else rest;
      assert AtLeast(threads[w := pc], rank, r) == if rank(pc) >= r then rest + {w} else rest;
    }
  }

  function WorkersLeft(s: State): nat { Total(s.workers, WorkerRank, 10) }

  function WaitersLeft(s: State): nat { Total(s.waiters, WaiterRank, 4) }

  /** How many steps the pool can still take by itself. */
  function StepsLeft(s: State): int {
    10 * s.sem + (if s.rw == RwFree then 0 else 12) + 12 * |s.queue| + WorkersLeft(s) + WaitersLeft(s)
  }

  lemma WorkerMoves(s: State, w: nat, pc: WorkerPc)
    requires w in s.workers
    ensures WorkersLeft(s.(workers := s.workers[w := pc])) == WorkersLeft(s) - WorkerRank(s.workers[w]) + WorkerRank(pc)
  {
    TotalUpdate(s.workers, WorkerRank, 10, w, pc);
  }

  lemma WaiterMoves(s: State, i: nat, pc: WaiterPc)
    requires i in s.waiters
    ensures WaitersLeft(s.(waiters := s.waiters[i := pc])) == WaitersLeft(s) - WaiterRank(s.waiters[i]) + WaiterRank(pc)
  {
    TotalUpdate(s.waiters, WaiterRank, 4, i, pc);
  }

  /** Every internal step lowers the measure. */
  lemma StepLowers(s: State, a: Step)
    requires Inv(s) && Enabled(s, a) && Internal(a)
    ensures StepsLeft(Do(s, a)) < StepsLeft(s)
  {
    if a.WaitLock? || a.WaitReadLen? || a.WaitReadWorking? || a.WaitSleep? {
      WaiterStepLowers(s, a, a.i);
    } else if a.PushPost? || a.PullPost? || a.Uncount? {
      SignalLowers(s, a);
    } else {
      WorkerStepLowers(s, a, a.w);
    }
  }

  lemma WaiterStepLowers(s: State, a: Step, i: nat)
    requires Enabled(s, a)
    requires a == WaitLock(i) || a == WaitReadLen(i) || a == WaitReadWorking(i) || a == WaitSleep(i)
    ensures StepsLeft(Do(s, a)) < StepsLeft(s)
  {
    hide Total;
    WaiterMoves(s, i, Do(s, a).waiters[i]);
  }

  lemma WorkerStepLowers(s: State, a: Step, w: nat)
    requires Inv(s) && Enabled(s, a)
    requires a == SemTake(w) || a == SemSleep(w) || a == Count(w) || a == Pull(w) || a == RunJob(w)
    ensures StepsLeft(Do(s, a)) < StepsLeft(s)
  {
    hide Total, CountsWorkers, PulledJobsAccounted, WaitersKnow, WorkAnnounced;
    WorkerMoves(s, w, Do(s, a).workers[w]);
  }

  lemma SignalLowers(s: State, a: Step)
    requires Inv(s) && Enabled(s, a) && (a.PushPost? || a.PullPost? || a.Uncount?)
    ensures StepsLeft(Do(s, a)) < StepsLeft(s)
  {
    hide Total, CountsWorkers, PulledJobsAccounted, WaitersKnow, WorkAnnounced;
    match a {
      case PushPost(k) => if k.Some? { WorkerMoves(s, k.value, AtSem); }
      case PullPost(w, k) =>
        var pc := Running(Some(s.workers[w].job));
        WorkerMoves(s, w, pc);
        if k.Some? { WorkerMoves(s.(workers := s.workers[w := pc]), k.value, AtSem); }
      case Uncount(w, k) =>
        WorkerMoves(s, w, AtSem);
        if k.Some? && k.value in s.waiters { WaiterMoves(s, k.value, Entering(s.waiters[k.value].mark)); }
    }
  }

  predicate AllInternal(run: seq<Step>) { forall a :: a in run ==> Internal(a) }

  /** A run of internal steps is no longer than the measure at its start. */
  lemma {:induction false} InternalRunsEnd(s: State, run: seq<Step>)
    requires Inv(s) && ValidRun(s, run) && AllInternal(run)
    ensures Inv(After(s, run)) && |run| + StepsLeft(After(s, run)) <= StepsLeft(s) && StepsLeft(After(s, run)) >= 0
    decreases |run|
  {
    hide StepsLeft, Inv, Do, Enabled;
    if run == [] {
      MeasureIsNatural(s);
    } else {
      assert run[0] in run && forall a :: a in run[1..] ==> a in run;
      StepLowers(s, run[0]);
      StepKeepsInv(s, run[0]);
      InternalRunsEnd(Do(s, run[0]), run[1..]);
    }
  }

  lemma MeasureIsNatural(s: State)
    requires Inv(s)
    ensures StepsLeft(s) >= 0
  {
  }

  /** Every submitted job has been pulled and run. */
  predicate AllDone(s: State) { s.queue == [] && forall k :: 0 <= k < s.submitted ==> k in s.finished }

  /** With every thread at the semaphore and nothing queued, all work is done. */
  lemma RestingPoolIsDone(s: State)
    requires Inv(s) && s.queue == []
    requires forall w :: w in s.workers ==> s.workers[w] == AtSem || s.workers[w] == Asleep
    ensures AllDone(s)
  {
    assert CountedSet(s.workers) == {};
    IdlePoolHasFinished(s);
    assert s.pulled + [] == s.pulled;
  }

  /** While some job is not finished, the pool can take a step of its own. */
  lemma UnfinishedPoolMoves(s: State) returns (a: Step)
    requires Inv(s) && s.workers != map[] && !AllDone(s)
    ensures Internal(a) && Enabled(s, a)
  {
    if s.queue != [] {
      a := QueuedJobMoves(s);
    } else if w :| w in s.workers && s.workers[w] != AtSem && s.workers[w] != Asleep {
      a := BusyWorkerMoves(s, w);
    } else {
      RestingPoolIsDone(s);
      assert false;
    }
  }

  /** No step is left that the pool could take by itself. */
  ghost predicate AtRest(s: State) { forall a :: Internal(a) ==> !Enabled(s, a) }

  /** All work done, every thread blocked on the semaphore, no lock held, every wait over or asleep. */
  predicate Quiet(s: State) {
    && AllDone(s) && s.sem == 0 && s.working == 0 && s.countLock == None && s.rw == RwFree
    && (forall w :: w in s.workers ==> s.workers[w] == Asleep)
    && (forall i :: i in s.waiters ==> s.waiters[i].Sleeping? || s.waiters[i].Returned?)
  }

  /** A pool is at rest exactly when it is quiet: there is no other deadlock. */
  lemma RestsIffQuiet(s: State)
    requires Inv(s) && s.workers != map[]
    ensures AtRest(s) <==> Quiet(s)
  {
    if AtRest(s) {
      RestingWorkers(s);
      RestingWaiters(s);
    }
  }

  lemma RestingWorkers(s: State)
    requires Inv(s) && s.workers != map[] && AtRest(s)
    ensures AllDone(s) && s.sem == 0 && s.working == 0 && s.rw == RwFree
    ensures forall w :: w in s.workers ==> s.workers[w] == Asleep
  {
    hide CountsWorkers, PulledJobsAccounted, WaitersKnow, WorkAnnounced, QueueInOrder, AllDone;
    forall w | w in s.workers
      ensures s.workers[w] == Asleep
    {
      if s.workers[w] != Asleep {
        var a := WakefulWorkerMoves(s, w);
        assert false;
      }
    }
    var w :| w in s.workers;
    var kw := SomeWorkerToSignal(s);
    assert !Enabled(s, PushPost(kw));
    NobodyIsCounted(s);
    if !AllDone(s) {
      var a := UnfinishedPoolMoves(s);
      assert false;
    }
  }

  lemma NobodyIsCounted(s: State)
    requires CountsWorkers(s) && forall w :: w in s.workers ==> s.workers[w] == Asleep
    ensures s.working == 0
  {
    assert CountedSet(s.workers) == {};
  }

  /** A worker that is not asleep can move, or the holder of the lock that it needs can. */
  lemma WakefulWorkerMoves(s: State, w: nat) returns (a: Step)
    requires Inv(s) && w in s.workers && s.workers[w] != Asleep
    ensures Internal(a) && Enabled(s, a)
  {
    if s.workers[w] == AtSem {
      a := if s.sem == 1 then SemTake(w) else SemSleep(w);
    } else {
      a := BusyWorkerMoves(s, w);
    }
  }

  lemma RestingWaiters(s: State)
    requires LocksHeld(s) && AtRest(s)
    ensures s.countLock == None
    ensures forall i :: i in s.waiters ==> s.waiters[i].Sleeping? || s.waiters[i].Returned?
  {
    if s.countLock.Some? {
      var a := LockHolderMoves(s);
      assert false;
    }
    forall i | i in s.waiters
      ensures s.waiters[i].Sleeping? || s.waiters[i].Returned?
    {
      assert !Enabled(s, WaitLock(i));
    }
  }

  /**
   A pool with at least one thread that is left to itself comes to rest, and then every job that was
   submitted has finished: whatever internal steps are taken, there are at most `StepsLeft` of
   them, and when no other one is possible nothing is queued or running, and every caller of
   `thpool_wait` has returned or sleeps.
   */
  lemma PoolDrains(s: State, before: seq<Step>, run: seq<Step>)
    requires Init(s) && s.workers != map[] && ValidRun(s, before)
    requires ValidRun(After(s, before), run) && AllInternal(run)
    ensures |run| <= StepsLeft(After(s, before))
    ensures var t := After(After(s, before), run);
            AtRest(t) <==> Quiet(t)
  {
    hide StepsLeft, Inv, AllDone, Enabled, Do;
    InitInv(s);
    RunKeepsInv(s, before);
    var m := After(s, before);
    InternalRunsEnd(m, run);
    WorkersStay(s, before);
    WorkersStay(m, run);
    RestsIffQuiet(After(m, run));
  }

  lemma {:induction false} WorkersStay(s: State, run: seq<Step>)
    requires ValidRun(s, run)
    ensures After(s, run).workers.Keys == s.workers.Keys
    decreases |run|
  {
    if run != [] {
      assert Do(s, run[0]).workers.Keys == s.workers.Keys;
      WorkersStay(Do(s, run[0]), run[1..]);
    }
  }

  /** From every reachable state there is such a run to its end. */
  lemma {:induction false} DrainingRun(s: State) returns (run: seq<Step>)
    requires Inv(s) && s.workers != map[]
    ensures ValidRun(s, run) && AllInternal(run) && Inv(After(s, run)) && Quiet(After(s, run))
    decreases StepsLeft(s)
  {
    hide StepsLeft, Inv, Quiet, Enabled, Do;
    RestsIffQuiet(s);
    if Quiet(s) { return []; }
    var a :| Internal(a) && Enabled(s, a);
    StepLowers(s, a);
    StepKeepsInv(s, a);
    MeasureIsNatural(Do(s, a));
    WorkersStay(s, [a]);
    var rest := DrainingRun(Do(s, a));
    run := [a] + rest;
    assert run[1..] == rest;
  }

  /** A job can be added whenever nobody holds `rwmutex`, and the pool by itself then finishes it. */
  lemma AddedJobFinishes(s: State) returns (run: seq<Step>)
    requires Inv(s) && s.workers != map[] && s.rw == RwFree
    ensures Enabled(s, PushLink) && ValidRun(Do(s, PushLink), run) && AllInternal(run)
    ensures s.submitted in After(Do(s, PushLink), run).finished
  {
    var t := Do(s, PushLink);
    StepKeepsInv(s, PushLink);
    run := DrainingRun(t);
    SubmittedStay(t, run);
  }

  lemma {:induction false} SubmittedStay(s: State, run: seq<Step>)
    requires ValidRun(s, run)
    ensures After(s, run).submitted >= s.submitted
    decreases |run|
  {
    if run != [] { SubmittedStay(Do(s, run[0]), run[1..]); }
  }

  // ----- waiters

  /** Only waiter `i` is ever used. */
  predicate OnlyWaiter(s: State, i: nat) { s.waiters.Keys <= {i} }

  /** The one waiter is asleep, or about to be, only while there is something to wait for. */
  ghost predicate SleepsForAReason(s: State, i: nat) {
    && OnlyWaiter(s, i)
    && (i in s.waiters && (s.waiters[i].Sleeping? || s.waiters[i].GoesToSleep?) ==> s.queue != [] || s.working > 0)
  }

  lemma StepKeepsReason(s: State, a: Step, i: nat)
    requires Inv(s) && Enabled(s, a) && SleepsForAReason(s, i)
    requires a.WaitCall? ==> a.i == i
    ensures SleepsForAReason(Do(s, a), i)
  {
    if a.Pull? {
      assert a.w in CountedSet(s.workers);
    }
  }

  lemma {:induction false} RunKeepsReason(s: State, run: seq<Step>, i: nat)
    requires Inv(s) && ValidRun(s, run) && SleepsForAReason(s, i)
    requires forall a :: a in run && a.WaitCall? ==> a.i == i
    ensures SleepsForAReason(After(s, run), i)
    decreases |run|
  {
    if run != [] {
      assert run[0] in run && forall a :: a in run[1..] ==> a in run;
      StepKeepsReason(s, run[0], i);
      StepKeepsInv(s, run[0]);
      RunKeepsReason(Do(s, run[0]), run[1..], i);
    }
  }

  /** No lost wake-up for a single waiter: asleep and unsignalled implies a queued job or a working thread. */
  lemma SingleWaiterIsNotForgotten(s: State, run: seq<Step>, i: nat)
    requires Init(s) && ValidRun(s, run)
    requires forall a :: a in run && a.WaitCall? ==> a.i == i
    requires i in After(s, run).waiters && After(s, run).waiters[i].Sleeping?
    ensures After(s, run).queue != [] || After(s, run).working > 0
  {
    InitInv(s);
    RunKeepsReason(s, run, i);
  }

  /** In a pool at rest the one waiter has returned. */
  lemma SingleWaiterReturns(s: State, run: seq<Step>, i: nat)
    requires Init(s) && s.workers != map[] && ValidRun(s, run)
    requires (forall a :: a in run && a.WaitCall? ==> a.i == i) && WaitCall(i) in run
    requires AtRest(After(s, run))
    ensures i in After(s, run).waiters && After(s, run).waiters[i].Returned?
  {
    InitInv(s);
    RunKeepsInv(s, run);
    RunKeepsReason(s, run, i);
    WorkersStay(s, run);
    RestsIffQuiet(After(s, run));
    CallerStays(s, run, i);
  }

  lemma {:induction false} CallerStays(s: State, run: seq<Step>, i: nat)
    requires ValidRun(s, run) && (WaitCall(i) in run || i in s.waiters)
    ensures i in After(s, run).waiters
    decreases |run|
  {
    if run != [] {
      assert i in Do(s, run[0]).waiters || WaitCall(i) in run[1..];
      CallerStays(Do(s, run[0]), run[1..], i);
    }
  }

  lemma OthersCallNot(before: seq<Step>, run: seq<Step>, i: nat)
    requires (forall a :: a in before && a.WaitCall? ==> a.i == i) && AllInternal(run)
    ensures forall a :: a in before + run && a.WaitCall? ==> a.i == i
  {
  }

  /** `thpool_wait` returns: from every state that a run with one waiter reaches, the pool by itself gets it there. */
  lemma WaitCanReturn(s: State, before: seq<Step>, i: nat) returns (run: seq<Step>)
    requires Init(s) && s.workers != map[] && ValidRun(s, before)
    requires (forall a :: a in before && a.WaitCall? ==> a.i == i) && WaitCall(i) in before
    ensures ValidRun(After(s, before), run) && AllInternal(run)
    ensures var t := After(After(s, before), run); i in t.waiters && t.waiters[i].Returned?
  {
    hide Enabled, Do, Inv, Quiet, StepsLeft;
    InitInv(s);
    RunKeepsInv(s, before);
    WorkersStay(s, before);
    var m := After(s, before);
    run := DrainingRun(m);
    WorkersStay(m, run);
    RestsIffQuiet(After(m, run));
    RunAppend(s, before, run);
    OthersCallNot(before, run, i);
    SingleWaiterReturns(s, before + run, i);
  }

  function Sleepers(s: State): set<nat> {
    set i | i in s.waiters && s.waiters[i].Sleeping?
  }

  /**
   The signal sent when the last working thread becomes idle frees every sleeper exactly
   when at most one was asleep: with two concurrent callers of `thpool_wait`, one of them
   is left asleep although the pool is idle.
   */
  lemma LastSignalFreesAllIff(s: State, w: nat, wakes: Option<nat>)
    requires Inv(s) && Enabled(s, Uncount(w, wakes)) && s.working == 1
    ensures var t := Do(s, Uncount(w, wakes));
            && t.working == 0
            && (Sleepers(t) == {} <==> |Sleepers(s)| <= 1)
  {
    var t := Do(s, Uncount(w, wakes));
    match wakes
    case None => assert Sleepers(s) == {} && Sleepers(t) == {};
    case Some(i) =>
      assert Sleepers(t) == Sleepers(s) - {i};
      assert i in Sleepers(s);
      assert |Sleepers(t)| == |Sleepers(s)| - 1;
  }

  lemma RunPrepend(s: State, a: Step, rest: seq<Step>)
    requires Enabled(s, a) && ValidRun(Do(s, a), rest)
    ensures ValidRun(s, [a] + rest) && After(s, [a] + rest) == After(Do(s, a), rest)
  {
    assert ([a] + rest)[1..] == rest;
  }

  /** One worker takes one job from the idle pool and has not run it yet. */
  const OneJobPulled := State(1, [], 0, 0, 1, None, RwFree, map[0 := Running(Some(0))], map[], [0], {})

  const Idle := State(0, [], 0, 0, 0, None, RwFree, map[0 := AtSem], map[], [], {})
  const Linked := State(1, [0], 1, 0, 0, None, PushOwesPost, map[0 := AtSem], map[], [], {})
  const Posted := State(1, [0], 1, 1, 0, None, RwFree, map[0 := AtSem], map[], [], {})
  const Taken := State(1, [0], 1, 0, 0, None, RwFree, map[0 := Took], map[], [], {})
  const Raised := State(1, [0], 1, 0, 1, None, RwFree, map[0 := Counted], map[], [], {})

  lemma JobIsPosted()
    ensures Init(Idle) && Enabled(Idle, PushLink) && Do(Idle, PushLink) == Linked
    ensures Enabled(Linked, PushPost(None)) && Do(Linked, PushPost(None)) == Posted
  {
  }

  lemma JobIsTaken()
    ensures Enabled(Posted, SemTake(0)) && Do(Posted, SemTake(0)) == Taken
    ensures Enabled(Taken, Count(0)) && Do(Taken, Count(0)) == Raised
  {
  }

  lemma JobIsPulled()
    ensures Enabled(Raised, Pull(0)) && Do(Raised, Pull(0)) == OneJobPulled
  {
  }

  lemma FirstJobPulled() returns (s: State, run: seq<Step>)
    ensures Init(s) && ValidRun(s, run) && After(s, run) == OneJobPulled
  {
    JobIsPosted();
    JobIsTaken();
    JobIsPulled();
    hide Enabled, Do, Init;
    RunPrepend(Raised, Pull(0), []);
    run := [Count(0)] + ([Pull(0)] + []);
    RunPrepend(Taken, Count(0), [Pull(0)] + []);
    RunPrepend(Posted, SemTake(0), run);
    run := [SemTake(0)] + run;
    RunPrepend(Linked, PushPost(None), run);
    run := [PushPost(None)] + run;
    RunPrepend(Idle, PushLink, run);
    run := [PushLink] + run;
    s := Idle;
  }

  /** While a thread is counted and the queue is empty, a caller of thpool_wait falls asleep. */
  lemma WaiterFallsAsleep(s: State, i: nat) returns (run: seq<Step>)
    requires i !in s.waiters && s.countLock == None && s.len == 0 && s.working > 0
    ensures ValidRun(s, run)
    ensures After(s, run) == s.(waiters := s.waiters[i := Sleeping(s.submitted)])
  {
    var s1 := Do(s, WaitCall(i));
    var s2 := Do(s1, WaitLock(i));
    var s3 := Do(s2, WaitReadLen(i));
    var s4 := Do(s3, WaitReadWorking(i));
    assert s4.waiters == s.waiters[i := GoesToSleep(s.submitted)];
    RunPrepend(s4, WaitSleep(i), []);
    RunPrepend(s3, WaitReadWorking(i), [WaitSleep(i)]);
    RunPrepend(s2, WaitReadLen(i), [WaitReadWorking(i)] + [WaitSleep(i)]);
    run := [WaitReadLen(i)] + ([WaitReadWorking(i)] + [WaitSleep(i)]);
    RunPrepend(s1, WaitLock(i), run);
    RunPrepend(s, WaitCall(i), [WaitLock(i)] + run);
    run := [WaitCall(i)] + ([WaitLock(i)] + run);
    assert Do(s4, WaitSleep(i)).waiters == s.waiters[i := Sleeping(s.submitted)];
  }

  lemma {:induction false} RunAppend(s: State, run: seq<Step>, rest: seq<Step>)
    requires ValidRun(s, run) && ValidRun(After(s, run), rest)
    ensures ValidRun(s, run + rest) && After(s, run + rest) == After(After(s, run), rest)
    decreases |run|
  {
    if run == [] {
      assert run + rest == rest;
    } else {
      assert (run + rest)[1..] == run[1..] + rest;
      RunAppend(Do(s, run[0]), run[1..], rest);
    }
  }

  /** A run of one worker and two waiters that ends idle with a waiter asleep. */
  lemma TwoWaitersCanBeForgotten() returns (s: State, run: seq<Step>)
    ensures Init(s) && ValidRun(s, run)
    ensures var t := After(s, run);
            t.queue == [] && t.working == 0 && 2 in Sleepers(t)
  {
    s, run := FirstJobPulled();
    var s1 := OneJobPulled;
    var first := WaiterFallsAsleep(s1, 1);
    var s2 := After(s1, first);
    var second := WaiterFallsAsleep(s2, 2);
    var s3 := After(s2, second);
    var s4 := Do(s3, RunJob(0));
    RunPrepend(s4, Uncount(0, Some(1)), []);
    RunPrepend(s3, RunJob(0), [Uncount(0, Some(1))]);
    RunAppend(s, run, first);
    RunAppend(s, run + first, second);
    RunAppend(s, run + first + second, [RunJob(0)] + [Uncount(0, Some(1))]);
    run := run + first + second + ([RunJob(0)] + [Uncount(0, Some(1))]);
  }
}
