/** Background jobs: three workers with a queue, a lock and counters each, in every interleaving. */
module Bio {
  datatype JobType = CloseFile | AofFsync | CloseAof | LazyFree | CompCloseFile | CompAofFsync | CompLazyFree

  /** bio_job_to_worker. */
  function WorkerOf(t: JobType): int {
    match t
    case CloseFile => 0
    case CompCloseFile => 0
    case AofFsync => 1
    case CloseAof => 1
    case CompAofFsync => 1
    case LazyFree => 2
    case CompLazyFree => 2
  }

  predicate IsCompletion(t: JobType) {
    t.CompCloseFile? || t.CompAofFsync? || t.CompLazyFree?
  }

  datatype Job = Job(id: int, kind: JobType)

  // ---------------------------------------------------------------------------------------
  // One worker
  // ---------------------------------------------------------------------------------------

  /** Who holds the lock of a worker. A submitter has yet to append its job, or to count it. */
  datatype Holder = Free | ByWorker | ByAppender(job: Job) | ByCounter(job: Job) | ByDrainer(drain: int)

  /** Where the worker thread is: at the top of its loop, waiting, processing without the lock, and
      then, with the lock again, about to delete the job from the queue and to count it. */
  datatype Thread = Top | Waiting | Running(job: Job) | Finished(job: Job) | Deleting(job: Job) | Counting(job: Job)

  /** A call of bioDrainWorker, with the jobs that had been submitted when it started. */
  datatype Drain =
    | Started(before: seq<Job>)
    | Checking(before: seq<Job>)
    | Asleep(before: seq<Job>)
    | Returned(before: seq<Job>)

  /** The shared state of a worker, and its history: jobs submitted, processed and removed so far. */
  datatype Worker = Worker(holder: Holder, jobs: seq<Job>, counter: map<JobType, int>, thread: Thread,
                           drains: map<int, Drain>, submitted: seq<Job>, processed: seq<Job>, removed: seq<Job>)

  /** The node of a job leaves the queue. */
  function Delete(jobs: seq<Job>, j: Job): seq<Job> {
    if jobs == [] then [] else if jobs[0] == j then jobs[1..] else [jobs[0]] + Delete(jobs[1..], j)
  }

  datatype Step =
    | SubmitLock(job: Job) | SubmitAppend | SubmitCount
    | Take | Wait | Wake | Process | Relock | Remove | Count
    | DrainCall(d: int) | DrainLock(d: int) | DrainSleep(d: int) | DrainWake(d: int) | DrainReturn(d: int)

  ghost predicate Enabled(w: Worker, s: Step) {
    match s
    case SubmitLock(job) => w.holder.Free?
    case SubmitAppend => w.holder.ByAppender?
    case SubmitCount => w.holder.ByCounter? && w.holder.job.kind in w.counter
    case Take => w.thread.Top? && w.holder.ByWorker? && w.jobs != []
    case Wait => w.thread.Top? && w.holder.ByWorker? && w.jobs == []
    case Wake => w.thread.Waiting? && w.holder.Free?
    case Process => w.thread.Running?
    case Relock => w.thread.Finished? && w.holder.Free?
    case Remove => w.thread.Deleting? && w.holder.ByWorker?
    case Count => w.thread.Counting? && w.holder.ByWorker? && w.thread.job.kind in w.counter
    case DrainCall(d) => d !in w.drains
    case DrainLock(d) => d in w.drains && w.drains[d].Started? && w.holder.Free?
    case DrainSleep(d) => d in w.drains && w.drains[d].Checking? && w.holder == ByDrainer(d) && w.jobs != []
    case DrainWake(d) => d in w.drains && w.drains[d].Asleep? && w.holder.Free?
    case DrainReturn(d) => d in w.drains && w.drains[d].Checking? && w.holder == ByDrainer(d) && w.jobs == []
  }

  function Next(w: Worker, s: Step): Worker
    requires Enabled(w, s)
  {
    match s
    case SubmitLock(job) => w.(holder := ByAppender(job))
    case SubmitAppend =>
      w.(holder := ByCounter(w.holder.job), jobs := w.jobs + [w.holder.job], submitted := w.submitted + [w.holder.job])
    case SubmitCount => w.(holder := Free, counter := w.counter[w.holder.job.kind := w.counter[w.holder.job.kind] + 1])
    case Take => w.(holder := Free, thread := Running(w.jobs[0]))
    case Wait => w.(holder := Free, thread := Waiting)
    case Wake => w.(holder := ByWorker, thread := Top)
    case Process => w.(thread := Finished(w.thread.job), processed := w.processed + [w.thread.job])
    case Relock => w.(holder := ByWorker, thread := Deleting(w.thread.job))
    case Remove =>
      w.(thread := Counting(w.thread.job), jobs := Delete(w.jobs, w.thread.job), removed := w.removed + [w.thread.job])
    case Count => w.(thread := Top, counter := w.counter[w.thread.job.kind := w.counter[w.thread.job.kind] - 1])
    case DrainCall(d) => w.(drains := w.drains[d := Started(w.submitted)])
    case DrainLock(d) => w.(holder := ByDrainer(d), drains := w.drains[d := Checking(w.drains[d].before)])
    case DrainSleep(d) => w.(holder := Free, drains := w.drains[d := Asleep(w.drains[d].before)])
    case DrainWake(d) => w.(holder := ByDrainer(d), drains := w.drains[d := Checking(w.drains[d].before)])
    case DrainReturn(d) => w.(holder := Free, drains := w.drains[d := Returned(w.drains[d].before)])
  }

  /** The worker thread starts with the lock held, an empty queue and all counters at zero. */
  ghost predicate Initial(w: Worker) {
    && w.holder == ByWorker && w.thread == Top && w.jobs == [] && w.drains == map[]
    && w.submitted == [] && w.processed == []
    && w.removed == [] && forall t :: t in w.counter && w.counter[t] == 0
  }

  // ---------------------------------------------------------------------------------------
  // Invariants
  // ---------------------------------------------------------------------------------------

  function CountKind(jobs: seq<Job>, t: JobType): int {
    if jobs == [] then 0 else CountKind(jobs[..|jobs| - 1], t) + (if jobs[|jobs| - 1].kind == t then 1 else 0)
  }

  ghost predicate QueueOk(w: Worker) {
    w.submitted == w.removed + w.jobs
  }

  /** The worker thread holds the lock exactly at the places where it should. */
  ghost predicate LockOk(w: Worker) {
    w.holder.ByWorker? <==> w.thread.Top? || w.thread.Deleting? || w.thread.Counting?
  }

  /** A job being worked on is the first of the queue until it is removed. */
  ghost predicate ThreadOk(w: Worker) {
    match w.thread
    case Running(j) => w.jobs != [] && w.jobs[0] == j && w.processed == w.removed
    case Finished(j) => w.jobs != [] && w.jobs[0] == j && w.processed == w.removed + [j]
    case Deleting(j) => w.jobs != [] && w.jobs[0] == j && w.processed == w.removed + [j]
    case _ => w.processed == w.removed
  }

  /** Off by one only between the change of the queue and the change of the counter. */
  ghost predicate CounterOk(w: Worker) {
    forall t :: t in w.counter && w.counter[t] == CountKind(w.jobs, t)
      - (if w.holder.ByCounter? && w.holder.job.kind == t then 1 else 0)
      + (if w.thread.Counting? && w.thread.job.kind == t then 1 else 0)
  }

  ghost predicate DrainOk(w: Worker) {
    forall d :: d in w.drains ==>
            if w.drains[d].Returned? then w.drains[d].before <= w.removed else w.drains[d].before <= w.submitted
  }

  ghost predicate WorkerInv(w: Worker) {
    QueueOk(w) && LockOk(w) && ThreadOk(w) && CounterOk(w) && DrainOk(w)
  }

  lemma CountSnoc(jobs: seq<Job>, j: Job, t: JobType)
    ensures CountKind(jobs + [j], t) == CountKind(jobs, t) + (if j.kind == t then 1 else 0)
  {
    assert (jobs + [j])[..|jobs|] == jobs;
  }

  lemma {:induction false} CountCons(jobs: seq<Job>, t: JobType)
    requires jobs != []
    ensures CountKind(jobs, t) == CountKind(jobs[1..], t) + (if jobs[0].kind == t then 1 else 0)
    decreases |jobs|
  {
    if |jobs| > 1 {
      var init := jobs[..|jobs| - 1];
      CountCons(init, t);
      assert init[1..] == jobs[1..][..|jobs| - 2];
    } else {
      assert jobs[..0] == [] && jobs[1..] == [];
    }
  }

  lemma InitialInv(w: Worker)
    requires Initial(w)
    ensures WorkerInv(w)
  {
  }

  lemma StepQueue(w: Worker, s: Step)
    requires WorkerInv(w) && Enabled(w, s)
    ensures QueueOk(Next(w, s)) && LockOk(Next(w, s)) && ThreadOk(Next(w, s))
  {
    hide CounterOk, DrainOk;
    match s
    case SubmitAppend => assert w.submitted + [w.holder.job] == w.removed + (w.jobs + [w.holder.job]);
    case Remove => assert w.removed + w.jobs == w.removed + [w.thread.job] + w.jobs[1..];
    case _ =>
  }

  lemma StepCounter(w: Worker, s: Step)
    requires WorkerInv(w) && Enabled(w, s)
    ensures CounterOk(Next(w, s))
  {
    hide QueueOk, DrainOk;
    var v := Next(w, s);
    forall t ensures t in v.counter && v.counter[t] == CountKind(v.jobs, t)
                       - (if v.holder.ByCounter? && v.holder.job.kind == t then 1 else 0)
                       + (if v.thread.Counting? && v.thread.job.kind == t then 1 else 0)
    {
      assert t in w.counter;
      if s.SubmitAppend? {
        CountSnoc(w.jobs, w.holder.job, t);
      } else if s.Remove? {
        CountCons(w.jobs, t);
      }
    }
  }

  lemma StepDrain(w: Worker, s: Step)
    requires WorkerInv(w) && Enabled(w, s)
    ensures DrainOk(Next(w, s))
  {
    hide CounterOk;
    var v := Next(w, s);
    forall d | d in v.drains
      ensures if v.drains[d].Returned? then v.drains[d].before <= v.removed else v.drains[d].before <= v.submitted
    {
      if d in w.drains {
        assert if w.drains[d].Returned? then w.drains[d].before <= w.removed else w.drains[d].before <= w.submitted;
      }
    }
  }

  lemma StepInv(w: Worker, s: Step)
    requires WorkerInv(w) && Enabled(w, s)
    ensures WorkerInv(Next(w, s))
  {
    hide CounterOk, QueueOk, DrainOk, LockOk, ThreadOk, Enabled, Next;
    StepQueue(w, s);
    StepCounter(w, s);
    StepDrain(w, s);
  }

  // ---------------------------------------------------------------------------------------
  // The three workers and the completion list
  // ---------------------------------------------------------------------------------------

  datatype Response = Response(worker: int, job: Job)

  /** `handed` is the list that the main thread has taken over, `called` the callbacks made. */
  datatype System = System(workers: map<int, Worker>, comp: seq<Response>, handed: seq<Response>, called: seq<Response>)

  datatype Action = On(w: int, step: Step) | Handover | Call

  ghost predicate Allowed(s: System, a: Action) {
    match a
    case On(w, step) =>
      w in s.workers && Enabled(s.workers[w], step) && (step.SubmitLock? ==> WorkerOf(step.job.kind) == w)
    case Handover => s.comp != [] && s.handed == []
    case Call => s.handed != []
  }

  /** A processed completion request is written to the completion list. */
  function Do(s: System, a: Action): System
    requires Allowed(s, a)
  {
    match a
    case On(w, step) =>
      var v := s.workers[w];
      var t := s.(workers := s.workers[w := Next(v, step)]);
      if step.Process? && IsCompletion(v.thread.job.kind) then t.(comp := s.comp + [Response(w, v.thread.job)]) else t
    case Handover => s.(handed := s.comp, comp := [])
    case Call => s.(handed := s.handed[1..], called := s.called + [s.handed[0]])
  }

  ghost predicate Start(s: System) {
    && s.workers.Keys == {0, 1, 2} && (forall w :: w in s.workers ==> Initial(s.workers[w]))
    && s.comp == [] && s.handed == [] && s.called == []
  }

  /** The completion requests among some jobs, as responses. */
  function Completions(w: int, jobs: seq<Job>): seq<Response> {
    if jobs == [] then []
    else
      var last := jobs[|jobs| - 1];
      Completions(w, jobs[..|jobs| - 1]) + (if IsCompletion(last.kind) then [Response(w, last)] else [])
  }

  function Of(w: int, rs: seq<Response>): seq<Response> {
    if rs == [] then []
    else
      var last := rs[|rs| - 1];
      Of(w, rs[..|rs| - 1]) + (if last.worker == w then [last] else [])
  }

  function Responses(s: System): seq<Response> {
    s.called + s.handed + s.comp
  }

  /** Every worker is in order, and its responses are those of the completion requests it has
      processed: each once, in order. */
  ghost predicate SystemInv(s: System) {
    && (forall w :: w in s.workers ==> WorkerInv(s.workers[w]))
    && (forall w :: w in s.workers ==> Of(w, Responses(s)) == Completions(w, s.workers[w].processed))
  }

  lemma OfSnoc(w: int, rs: seq<Response>, r: Response)
    ensures Of(w, rs + [r]) == Of(w, rs) + (if r.worker == w then [r] else [])
  {
    assert (rs + [r])[..|rs|] == rs;
  }

  lemma CompletionsSnoc(w: int, jobs: seq<Job>, j: Job)
    ensures Completions(w, jobs + [j]) == Completions(w, jobs) + (if IsCompletion(j.kind) then [Response(w, j)] else [])
  {
    assert (jobs + [j])[..|jobs|] == jobs;
  }

  lemma ResponsesMove(s: System, a: Action)
    requires Allowed(s, a) && !a.On?
    ensures Responses(Do(s, a)) == Responses(s)
  {
    if a.Call? {
      assert s.handed == [s.handed[0]] + s.handed[1..];
    }
  }

  lemma WorkerKeeps(s: System, w: int, step: Step, v: int)
    requires SystemInv(s) && Allowed(s, On(w, step)) && v in s.workers
    ensures WorkerInv(Do(s, On(w, step)).workers[v])
    ensures Of(v, Responses(Do(s, On(w, step)))) == Completions(v, Do(s, On(w, step)).workers[v].processed)
  {
    hide WorkerInv;
    var t := Do(s, On(w, step));
    if v == w {
      StepInv(s.workers[w], step);
    }
    if step.Process? {
      var j := s.workers[w].thread.job;
      CompletionsSnoc(w, s.workers[w].processed, j);
      if IsCompletion(j.kind) {
        assert Responses(t) == Responses(s) + [Response(w, j)];
        OfSnoc(v, Responses(s), Response(w, j));
      }
    }
  }

  lemma ActionKeeps(s: System, a: Action)
    requires SystemInv(s) && Allowed(s, a)
    ensures SystemInv(Do(s, a))
  {
    hide WorkerInv;
    var t := Do(s, a);
    if a.On? {
      forall v | v in t.workers
        ensures WorkerInv(t.workers[v]) && Of(v, Responses(t)) == Completions(v, t.workers[v].processed)
      {
        WorkerKeeps(s, a.w, a.step, v);
      }
    } else {
      ResponsesMove(s, a);
    }
  }

  /** A run: states linked by actions. */
  ghost predicate Run(states: seq<System>, actions: seq<Action>) {
    && |states| == |actions| + 1 && Start(states[0])
    && forall i :: 0 <= i < |actions| ==> Allowed(states[i], actions[i]) && states[i + 1] == Do(states[i], actions[i])
  }

  lemma {:induction false} RunInv(states: seq<System>, actions: seq<Action>, n: nat)
    requires Run(states, actions) && n < |states|
    ensures SystemInv(states[n])
  {
    hide WorkerInv, Allowed, Do;
    if n == 0 {
      forall w | w in states[0].workers ensures WorkerInv(states[0].workers[w]) {
        InitialInv(states[0].workers[w]);
      }
    } else {
      RunInv(states, actions, n - 1);
      ActionKeeps(states[n - 1], actions[n - 1]);
    }
  }

  // ---------------------------------------------------------------------------------------
  // What every interleaving guarantees
  // ---------------------------------------------------------------------------------------

  /** Whenever the lock of a worker is free, its counters are the numbers of jobs in its queue. */
  lemma CountersAreExact(states: seq<System>, actions: seq<Action>, n: nat, w: int, t: JobType)
    requires Run(states, actions) && n < |states| && w in states[n].workers && states[n].workers[w].holder.Free?
    ensures t in states[n].workers[w].counter
    ensures states[n].workers[w].counter[t] == CountKind(states[n].workers[w].jobs, t)
  {
    hide Run, DrainOk, QueueOk, ThreadOk;
    RunInv(states, actions, n);
    assert CounterOk(states[n].workers[w]);
  }

  /** Jobs are finished in the order of their submission. */
  lemma FinishedInOrder(states: seq<System>, actions: seq<Action>, n: nat, w: int)
    requires Run(states, actions) && n < |states| && w in states[n].workers
    ensures states[n].workers[w].removed <= states[n].workers[w].processed <= states[n].workers[w].submitted
  {
    hide Run, DrainOk, CounterOk;
    RunInv(states, actions, n);
    var v := states[n].workers[w];
    assert QueueOk(v) && ThreadOk(v);
    if v.thread.Finished? || v.thread.Deleting? {
      assert v.removed + v.jobs == v.removed + [v.jobs[0]] + v.jobs[1..];
    }
  }

  lemma {:induction false} CompletionFrom(w: int, jobs: seq<Job>, r: Response) returns (i: nat)
    requires r in Completions(w, jobs)
    ensures i < |jobs| && r == Response(w, jobs[i])
    decreases |jobs|
  {
    var last := jobs[|jobs| - 1];
    if r in Completions(w, jobs[..|jobs| - 1]) {
      i := CompletionFrom(w, jobs[..|jobs| - 1], r);
    } else {
      i := |jobs| - 1;
    }
  }

  lemma {:induction false} OfContains(w: int, rs: seq<Response>, r: Response)
    requires r in rs && r.worker == w
    ensures r in Of(w, rs)
    decreases |rs|
  {
    if r != rs[|rs| - 1] {
      assert r in rs[..|rs| - 1];
      OfContains(w, rs[..|rs| - 1], r);
    }
  }

  /** A response is there only after its request and every job submitted to the worker before it
      were processed. */
  lemma ResponseAfterEarlierJobs(states: seq<System>, actions: seq<Action>, n: nat, r: Response) returns (i: nat)
    requires Run(states, actions) && n < |states| && r in Responses(states[n]) && r.worker in states[n].workers
    ensures var w := states[n].workers[r.worker];
            i < |w.processed| <= |w.submitted| && w.submitted[i] == r.job &&
                    w.processed[..i + 1] == w.submitted[..i + 1]
  {
    hide Run, WorkerInv;
    RunInv(states, actions, n);
    FinishedInOrder(states, actions, n, r.worker);
    OfContains(r.worker, Responses(states[n]), r);
    i := CompletionFrom(r.worker, states[n].workers[r.worker].processed, r);
  }

  /** When bioDrainWorker has returned, all jobs submitted before the call are processed and gone
      from the queue. */
  lemma DrainedMeansDone(states: seq<System>, actions: seq<Action>, n: nat, w: int, d: int)
    requires Run(states, actions) && n < |states| && w in states[n].workers && d in states[n].workers[w].drains
    requires states[n].workers[w].drains[d].Returned?
    ensures states[n].workers[w].drains[d].before <= states[n].workers[w].removed <= states[n].workers[w].processed
  {
    hide Run, CounterOk, QueueOk, ThreadOk;
    RunInv(states, actions, n);
    FinishedInOrder(states, actions, n, w);
    assert DrainOk(states[n].workers[w]);
  }

  // ---------------------------------------------------------------------------------------
  // Which worker does what
  // ---------------------------------------------------------------------------------------

  ghost predicate OnlyFor(w: int, jobs: seq<Job>) {
    forall i :: 0 <= i < |jobs| ==> WorkerOf(jobs[i].kind) == w
  }

  /** What is submitted, or about to be, belongs to the worker. */
  ghost predicate Sorted(s: System) {
    forall w :: w in s.workers ==>
      && OnlyFor(w, s.workers[w].submitted)
      && (s.workers[w].holder.ByAppender? ==> WorkerOf(s.workers[w].holder.job.kind) == w)
  }

  lemma StepSorts(w: int, v: Worker, step: Step)
    requires Enabled(v, step) && OnlyFor(w, v.submitted) && (step.SubmitLock? ==> WorkerOf(step.job.kind) == w)
    requires v.holder.ByAppender? ==> WorkerOf(v.holder.job.kind) == w
    ensures OnlyFor(w, Next(v, step).submitted)
    ensures Next(v, step).holder.ByAppender? ==> WorkerOf(Next(v, step).holder.job.kind) == w
  {
    hide WorkerOf;
  }

  lemma {:induction false} RunSorts(states: seq<System>, actions: seq<Action>, n: nat)
    requires Run(states, actions) && n < |states|
    ensures Sorted(states[n])
  {
    if n > 0 {
      RunSorts(states, actions, n - 1);
      var (s, a) := (states[n - 1], actions[n - 1]);
      assert Allowed(s, a) && states[n] == Do(s, a);
      if a.On? {
        StepSorts(a.w, s.workers[a.w], a.step);
      }
      hide Next, WorkerOf, Enabled, OnlyFor;
    }
  }

  /** Closing an AOF file is never done before an earlier request to sync one, since one worker does both
      and in order; the same holds for a request for a completion and the jobs of its kind. */
  lemma SyncedBeforeClosed(states: seq<System>, actions: seq<Action>, n: nat, w: int, v: int, i: nat, j: nat)
    requires Run(states, actions) && n < |states| && w in states[n].workers && v in states[n].workers
    requires i < |states[n].workers[w].submitted| && j < |states[n].workers[v].submitted|
    requires var (a, b) := (states[n].workers[w].submitted[i].kind, states[n].workers[v].submitted[j].kind);
             || ((a.AofFsync? || a.CloseAof?) && (b.AofFsync? || b.CloseAof? || b.CompAofFsync?))
             || (a.CloseFile? && b.CompCloseFile?) || (a.LazyFree? && b.CompLazyFree?)
    ensures w == v
    ensures i < j < |states[n].workers[w].processed| ==>
              states[n].workers[w].processed[i] == states[n].workers[w].submitted[i]
  {
    RunSorts(states, actions, n);
    assert WorkerOf(states[n].workers[w].submitted[i].kind) == w;
    assert WorkerOf(states[n].workers[v].submitted[j].kind) == v;
    FinishedInOrder(states, actions, n, w);
  }

  lemma {:induction false} RequestGivesResponse(w: int, jobs: seq<Job>, i: nat)
    requires i < |jobs| && (jobs[i].kind.CompCloseFile? || jobs[i].kind.CompAofFsync? || jobs[i].kind.CompLazyFree?)
    ensures Response(w, jobs[i]) in Completions(w, jobs)
    decreases |jobs|
  {
    if i < |jobs| - 1 {
      RequestGivesResponse(w, jobs[..|jobs| - 1], i);
    }
  }

  lemma {:induction false} OfIsIn(w: int, rs: seq<Response>, r: Response)
    requires r in Of(w, rs)
    ensures r in rs && r.worker == w
  {
    if rs != [] && r in Of(w, rs[..|rs| - 1]) {
      OfIsIn(w, rs[..|rs| - 1], r);
    }
  }

  lemma {:induction false} CompletionIsRequest(w: int, jobs: seq<Job>, r: Response)
    requires r in Completions(w, jobs)
    ensures r.job.kind.CompCloseFile? || r.job.kind.CompAofFsync? || r.job.kind.CompLazyFree?
  {
    if jobs != [] && r in Completions(w, jobs[..|jobs| - 1]) {
      CompletionIsRequest(w, jobs[..|jobs| - 1], r);
    }
  }

  /** Every request for a completion that was processed has its response, and no other job has one. */
  lemma ResponseForEveryRequest(states: seq<System>, actions: seq<Action>, n: nat, w: int, i: nat, r: Response)
    requires Run(states, actions) && n < |states| && w in states[n].workers && i < |states[n].workers[w].processed|
    ensures var job := states[n].workers[w].processed[i];
            job.kind.CompCloseFile? || job.kind.CompAofFsync? || job.kind.CompLazyFree? ==>
              Response(w, job) in Responses(states[n])
    ensures r in Responses(states[n]) && r.worker in states[n].workers ==>
              r.job.kind.CompCloseFile? || r.job.kind.CompAofFsync? || r.job.kind.CompLazyFree?
  {
    RunInv(states, actions, n);
    hide WorkerInv;
    var (all, done) := (Responses(states[n]), states[n].workers[w].processed);
    assert Of(w, all) == Completions(w, done);
    if done[i].kind.CompCloseFile? || done[i].kind.CompAofFsync? || done[i].kind.CompLazyFree? {
      RequestGivesResponse(w, done, i);
      OfIsIn(w, all, Response(w, done[i]));
    }
    if r in all && r.worker in states[n].workers {
      OfContains(r.worker, all, r);
      CompletionIsRequest(r.worker, states[n].workers[r.worker].processed, r);
    }
  }
}
