/** The dark-web worker's one job at a time, and its cancellation: `do_POST` and `run_voidaccess` as
    threads that take atomic steps in any order. */
module JobSlot {
  import opened Outcomes

  type Thread = nat

  /** A process object, which is never reused. */
  type Process = nat

  /** A job id, in its canonical lower-case form. */
  type JobId = string

  /** Where a request thread is. */
  datatype Place =
    | JobArrived(job: JobId)                     // before `_job_lock.acquire`
    | Holding(job: JobId)                        // holds the job lock
    | Spawned(job: JobId, process: Process)      // the process runs but is not published
    | Waiting(job: JobId, process: Process)      // published, in `wait`
    | TimedOut(job: JobId, process: Process)     // has killed the process, in the second `wait`
    | Waited(job: JobId, process: Process)       // in the `finally`
    | Leaving(job: JobId)                        // the slot is empty again
    | CancelArrived(id: JobId)                   // before `_active_lock`
    | CancelRead(id: JobId, found: Option<Process>)
    | CancelKilling(id: JobId, process: Process) // has found the process running
    | Replied(code: nat)

  datatype ProcessState = ProcessState(job: JobId, running: bool)

  datatype State = State(
    jobLock: Option<Thread>,
    activeId: Option<JobId>,
    activeProcess: Option<Process>,
    processes: map<Process, ProcessState>,
    threads: map<Thread, Place>,
    kills: set<(JobId, Process)>)                // the cancellations that reached a process

  /** One atomic step of a thread, the end of a process, or the arrival of a request. */
  datatype Step =
    | ArriveJob(t: Thread, job: JobId)
    | ArriveCancel(t: Thread, id: JobId)
    | Acquire(t: Thread)
    | Refuse(t: Thread)                          // an invalid payload, or no process can be started
    | Spawn(t: Thread, process: Process)
    | Publish(t: Thread)
    | TimeOut(t: Thread)
    | KillFails(t: Thread)                       // `killpg` raises in the timeout branch
    | Wait(t: Thread)
    | Clear(t: Thread)
    | Release(t: Thread, code: nat)
    | Read(t: Thread)
    | Poll(t: Thread)
    | Kill(t: Thread)
    | KillGone(t: Thread)                        // there is no such process any more
    | Ends(process: Process)

  function Initial(): State {
    State(None, None, None, map[], map[], {})
  }

  function At(s: State, t: Thread, place: Place): State {
    s.(threads := s.threads[t := place])
  }

  predicate IsAt(s: State, t: Thread) { t in s.threads }

  function Ended(s: State, p: Process): State
    requires p in s.processes
  {
    s.(processes := s.processes[p := s.processes[p].(running := false)])
  }

  predicate Runs(s: State, p: Process) {
    p in s.processes && s.processes[p].running
  }

  /** The state after a step; a step that the thread cannot take changes nothing. */
  function Next(s: State, step: Step): State {
    match step
    case ArriveJob(t, job) => if IsAt(s, t) then s else At(s, t, JobArrived(job))
    case ArriveCancel(t, id) => if IsAt(s, t) then s else At(s, t, CancelArrived(id))
    case Acquire(t) =>
      if !(IsAt(s, t) && s.threads[t].JobArrived?) then s
      else if s.jobLock.Some? then At(s, t, Replied(429))
      else At(s, t, Holding(s.threads[t].job)).(jobLock := Some(t))
    case Refuse(t) =>
      if IsAt(s, t) && s.threads[t].Holding? then At(s, t, Leaving(s.threads[t].job)) else s
    case Spawn(t, p) =>
      if !(IsAt(s, t) && s.threads[t].Holding? && p !in s.processes) then s
      else At(s, t, Spawned(s.threads[t].job, p)).(processes := s.processes[p := ProcessState(s.threads[t].job, true)])
    case Publish(t) =>
      if !(IsAt(s, t) && s.threads[t].Spawned?) then s
      else At(s, t, Waiting(s.threads[t].job, s.threads[t].process))
           .(activeId := Some(s.threads[t].job), activeProcess := Some(s.threads[t].process))
    case TimeOut(t) =>
      if IsAt(s, t) && s.threads[t].Waiting? then At(s, t, TimedOut(s.threads[t].job, s.threads[t].process)) else s
    case KillFails(t) =>
      if IsAt(s, t) && s.threads[t].Waiting? then At(s, t, Waited(s.threads[t].job, s.threads[t].process)) else s
    case Wait(t) =>
      if IsAt(s, t) && (s.threads[t].Waiting? || s.threads[t].TimedOut?) && !Runs(s, s.threads[t].process)
      then At(s, t, Waited(s.threads[t].job, s.threads[t].process)) else s
    case Clear(t) =>
      if !(IsAt(s, t) && s.threads[t].Waited?) then s
      else
        var left := At(s, t, Leaving(s.threads[t].job));
        if s.activeProcess == Some(s.threads[t].process) then left.(activeId := None, activeProcess := None) else left
    case Release(t, code) =>
      if IsAt(s, t) && s.threads[t].Leaving? then At(s, t, Replied(code)).(jobLock := None) else s
    case Read(t) =>
      if !(IsAt(s, t) && s.threads[t].CancelArrived?) then s
      else
        var id := s.threads[t].id;
        At(s, t, CancelRead(id, if s.activeId == Some(id) then s.activeProcess else None))
    case Poll(t) =>
      if !(IsAt(s, t) && s.threads[t].CancelRead?) then s
      else
        var found := s.threads[t].found;
        if found.None? || !Runs(s, found.value) then At(s, t, Replied(404))
        else At(s, t, CancelKilling(s.threads[t].id, found.value))
    case Kill(t) =>
      if !(IsAt(s, t) && s.threads[t].CancelKilling?) then s
      else At(s, t, Replied(202)).(kills := s.kills + {(s.threads[t].id, s.threads[t].process)})
    case KillGone(t) =>
      if IsAt(s, t) && s.threads[t].CancelKilling? && !Runs(s, s.threads[t].process) then At(s, t, Replied(404)) else s
    case Ends(p) => if p in s.processes then Ended(s, p) else s
  }

  function Run(s: State, steps: seq<Step>): State {
    if |steps| == 0 then s else Next(Run(s, steps[..|steps| - 1]), steps[|steps| - 1])
  }

  // --- The invariant ---

  /** A thread between acquiring and releasing the job lock. */
  predicate HasLock(p: Place) {
    p.Holding? || p.Spawned? || p.Waiting? || p.TimedOut? || p.Waited? || p.Leaving?
  }

  /** A thread whose process may run. */
  predicate Minds(p: Place) { p.Spawned? || p.Waiting? || p.TimedOut? }

  /** A thread whose process is in the slot. */
  predicate Published(p: Place) { p.Waiting? || p.TimedOut? || p.Waited? }

  ghost predicate LockInv(s: State) {
    && (forall t :: t in s.threads && HasLock(s.threads[t]) ==> s.jobLock == Some(t))
    && (s.jobLock.Some? ==> s.jobLock.value in s.threads && HasLock(s.threads[s.jobLock.value]))
  }

  predicate IsMinded(s: State, p: Process) {
    && s.jobLock.Some? && s.jobLock.value in s.threads
    && Minds(s.threads[s.jobLock.value]) && s.threads[s.jobLock.value].process == p
  }

  /** What runs is minded by the thread that holds the lock. */
  ghost predicate MindInv(s: State) {
    forall p :: Runs(s, p) ==> IsMinded(s, p)
  }

  /** A thread has the process that was started for its job. */
  ghost predicate JobInv(s: State) {
    forall t :: t in s.threads && (Minds(s.threads[t]) || s.threads[t].Waited?) ==>
      Aims(s, s.threads[t].job, s.threads[t].process)
  }

  /** The slot is that of the thread that holds the lock, while its process is published. */
  ghost predicate SlotInv(s: State) {
    && (s.activeId.Some? <==> s.activeProcess.Some?)
    && (forall t :: t in s.threads && Published(s.threads[t]) ==>
          s.activeId == Some(s.threads[t].job) && s.activeProcess == Some(s.threads[t].process))
    && (s.activeId.Some? ==> s.jobLock.Some? && s.jobLock.value in s.threads && Published(s.threads[s.jobLock.value]))
  }

  /** A cancellation aims at a process that was started for its own job. */
  predicate Aims(s: State, id: JobId, p: Process) {
    p in s.processes && s.processes[p].job == id
  }

  ghost predicate CancelInv(s: State) {
    && (forall t :: t in s.threads && s.threads[t].CancelRead? && s.threads[t].found.Some? ==>
          Aims(s, s.threads[t].id, s.threads[t].found.value))
    && (forall t :: t in s.threads && s.threads[t].CancelKilling? ==> Aims(s, s.threads[t].id, s.threads[t].process))
    && (forall k :: k in s.kills ==> Aims(s, k.0, k.1))
  }

  ghost predicate Inv(s: State) {
    LockInv(s) && JobInv(s) && SlotInv(s) && CancelInv(s)
  }

  /** A kill that fails finds its process ended: `killpg` raises because there is no such process. */
  predicate Excused(s: State, step: Step) {
    step.KillFails? && IsAt(s, step.t) && s.threads[step.t].Waiting? ==> !Runs(s, s.threads[step.t].process)
  }

  ghost predicate AllExcused(steps: seq<Step>) {
    forall i :: 0 <= i < |steps| ==> Excused(Run(Initial(), steps[..i]), steps[i])
  }

  lemma LockKept(s: State, step: Step)
    requires LockInv(s)
    ensures LockInv(Next(s, step))
  {
  }

  lemma MindKept(s: State, step: Step)
    requires LockInv(s) && MindInv(s) && Excused(s, step)
    ensures MindInv(Next(s, step))
  {
    var n := Next(s, step);
    forall p | Runs(n, p) ensures IsMinded(n, p) {
      if Runs(s, p) {
        assert IsMinded(s, p);
      } else {
        assert step.Spawn?;
      }
    }
  }

  lemma AimsKept(s: State, step: Step, id: JobId, p: Process)
    requires Aims(s, id, p)
    ensures Aims(Next(s, step), id, p)
  {
  }

  lemma JobKept(s: State, step: Step)
    requires JobInv(s)
    ensures JobInv(Next(s, step))
  {
    forall id, p | Aims(s, id, p) ensures Aims(Next(s, step), id, p) { AimsKept(s, step, id, p); }
  }

  lemma SlotKept(s: State, step: Step)
    requires LockInv(s) && SlotInv(s)
    ensures SlotInv(Next(s, step))
  {
  }

  lemma CancelKept(s: State, step: Step)
    requires Inv(s)
    ensures CancelInv(Next(s, step))
  {
    hide LockInv;
    forall id, p | Aims(s, id, p) ensures Aims(Next(s, step), id, p) { AimsKept(s, step, id, p); }
  }

  lemma {:induction false} InvHolds(steps: seq<Step>)
    ensures Inv(Run(Initial(), steps))
  {
    hide Next, LockInv, JobInv, SlotInv, CancelInv;
    if |steps| == 0 {
      InvInitially();
    } else {
      var s, step := Run(Initial(), steps[..|steps| - 1]), steps[|steps| - 1];
      InvHolds(steps[..|steps| - 1]);
      LockKept(s, step);
      JobKept(s, step);
      SlotKept(s, step);
      CancelKept(s, step);
    }
  }

  /** As long as no kill fails on a process that runs, what runs is minded. */
  lemma {:induction false} MindHolds(steps: seq<Step>)
    requires AllExcused(steps)
    ensures MindInv(Run(Initial(), steps))
  {
    hide Next, LockInv, MindInv, JobInv, SlotInv, CancelInv, Excused;
    if |steps| == 0 {
      InvInitially();
    } else {
      var front := steps[..|steps| - 1];
      assert forall i :: 0 <= i < |front| ==> front[..i] == steps[..i] && front[i] == steps[i];
      InvHolds(front);
      MindHolds(front);
      MindKept(Run(Initial(), front), steps[|steps| - 1]);
    }
  }

  lemma InvInitially()
    ensures Inv(Initial()) && MindInv(Initial())
  {
  }

  // --- What it means ---

  /** At most one investigation process runs, in every interleaving in which no kill fails on a process
      that runs. */
  lemma OneProcess(steps: seq<Step>, p: Process, q: Process)
    requires AllExcused(steps)
    requires Runs(Run(Initial(), steps), p) && Runs(Run(Initial(), steps), q)
    ensures p == q
  {
    hide Run, AllExcused, Runs;
    MindHolds(steps);
  }

  /** A second job and its process, after the kill of the first one has failed. */
  function Overlap(t: Thread, u: Thread, job: JobId, q: Process): seq<Step> {
    [KillFails(t), Clear(t), Release(t, 502), ArriveJob(u, job), Acquire(u), Spawn(u, q)]
  }

  /** The condition is needed wherever a process is waited for: a failed kill leaves it running, the
      lock is freed, and the next job starts another one beside it. */
  lemma FailedKillOverlaps(steps: seq<Step>, t: Thread, u: Thread, job: JobId, q: Process)
    requires var s := Run(Initial(), steps);
             && t in s.threads && s.threads[t].Waiting? && Runs(s, s.threads[t].process)
             && u !in s.threads && q !in s.processes
    ensures var p, after := Run(Initial(), steps).threads[t].process, Run(Initial(), steps + Overlap(t, u, job, q));
            p != q && Runs(after, p) && Runs(after, q)
  {
    hide Run, Next, LockInv, JobInv, SlotInv, CancelInv;
    var s := Run(Initial(), steps);
    InvHolds(steps);
    LockOf(s, t);
    SixMore(steps, KillFails(t), Clear(t), Release(t, 502), ArriveJob(u, job), Acquire(u), Spawn(u, q));
    var s3 := Freed(s, t);
    Beside(s3, u, job, q);
  }

  lemma LockOf(s: State, t: Thread)
    requires LockInv(s) && t in s.threads && HasLock(s.threads[t])
    ensures s.jobLock == Some(t)
  {
  }

  /** After the failed kill the lock is free and the process as it was. */
  lemma Freed(s: State, t: Thread) returns (after: State)
    requires t in s.threads && s.threads[t].Waiting?
    ensures after == Next(Next(Next(s, KillFails(t)), Clear(t)), Release(t, 502))
    ensures after.jobLock.None? && after.processes == s.processes && after.threads.Keys == s.threads.Keys
  {
    after := Next(Next(Next(s, KillFails(t)), Clear(t)), Release(t, 502));
  }

  lemma Beside(s: State, u: Thread, job: JobId, q: Process)
    requires s.jobLock.None? && u !in s.threads && q !in s.processes
    ensures Next(Next(Next(s, ArriveJob(u, job)), Acquire(u)), Spawn(u, q)).processes
         == s.processes[q := ProcessState(job, true)]
  {
    var s1 := Next(s, ArriveJob(u, job));
    var s2 := Next(s1, Acquire(u));
    assert s2.threads[u] == Holding(job) && s2.processes == s.processes;
  }

  /** The slot is empty whenever the job lock is free, and nothing runs if no kill has failed on a
      process that runs. */
  lemma SlotEmptyWhenFree(steps: seq<Step>)
    ensures var s := Run(Initial(), steps);
            s.jobLock.None? ==>
              && s.activeId.None? && s.activeProcess.None?
              && (AllExcused(steps) ==> forall p :: !Runs(s, p))
  {
    hide Run, LockInv, CancelInv, Runs, AllExcused;
    InvHolds(steps);
    if AllExcused(steps) { MindHolds(steps); }
  }

  /** A cancellation only ever reaches a process that was started for the job it names. */
  lemma CancelHitsItsOwn(steps: seq<Step>, id: JobId, p: Process)
    requires (id, p) in Run(Initial(), steps).kills
    ensures p in Run(Initial(), steps).processes && Run(Initial(), steps).processes[p].job == id
  {
    hide Run, LockInv, JobInv, SlotInv;
    InvHolds(steps);
    assert forall k :: k in Run(Initial(), steps).kills ==> Aims(Run(Initial(), steps), k.0, k.1);
  }

  /** A cancellation finds a process exactly when some thread has published one for that job. */
  lemma CancelFinds(steps: seq<Step>, t: Thread)
    requires var s := Run(Initial(), steps); t in s.threads && s.threads[t].CancelArrived?
    ensures var s := Run(Initial(), steps);
            var after := Next(s, Read(t)).threads[t];
            after.CancelRead? && (after.found.Some? <==>
              exists j :: j in s.threads && Published(s.threads[j]) && s.threads[j].job == s.threads[t].id)
  {
    hide Run, JobInv, CancelInv;
    InvHolds(steps);
  }

  /** What has become of a cancellation: it is under way, or has been answered, and with 202 only when
      it has reached a process of its job. */
  predicate IsCancelling(s: State, t: Thread, id: JobId) {
    && t in s.threads
    && match s.threads[t]
       case CancelArrived(i) => i == id
       case CancelRead(i, _) => i == id
       case CancelKilling(i, _) => i == id
       case Replied(code) => code == 404 || (code == 202 && Reached(s, id))
       case _ => false
  }

  predicate Reached(s: State, id: JobId) {
    exists k :: k in s.kills && k.0 == id
  }

  lemma CancellingKept(s: State, step: Step, t: Thread, id: JobId)
    requires IsCancelling(s, t, id)
    ensures IsCancelling(Next(s, step), t, id)
  {
    var n := Next(s, step);
    assert s.kills <= n.kills;
    if step.Kill? && step.t == t && s.threads[t].CancelKilling? {
      assert (id, s.threads[t].process) in n.kills;
    }
  }

  /** In every run a cancellation that arrives is answered with 404, or with 202 once it has reached a
      process that was started for its job, and with nothing else. */
  lemma {:induction false} CancelAnswered(s: State, t: Thread, id: JobId, after: seq<Step>)
    requires t !in s.threads
    ensures IsCancelling(Run(Next(s, ArriveCancel(t, id)), after), t, id)
  {
    hide IsCancelling, Next;
    if |after| == 0 {
      Arrives(s, t, id);
    } else {
      CancelAnswered(s, t, id, after[..|after| - 1]);
      CancellingKept(Run(Next(s, ArriveCancel(t, id)), after[..|after| - 1]), after[|after| - 1], t, id);
    }
  }

  lemma Arrives(s: State, t: Thread, id: JobId)
    requires t !in s.threads
    ensures IsCancelling(Next(s, ArriveCancel(t, id)), t, id)
  {
  }

  /** And one that finds the process of its job published and running reaches it, and says so. */
  lemma CancelReaches(steps: seq<Step>, t: Thread, j: Thread)
    requires var s := Run(Initial(), steps);
             && t in s.threads && s.threads[t].CancelArrived?
             && j in s.threads && s.threads[j].Waiting? && s.threads[j].job == s.threads[t].id
             && Runs(s, s.threads[j].process)
    ensures var s := Run(Initial(), steps);
            var r := Next(Next(Next(s, Read(t)), Poll(t)), Kill(t));
            r.threads[t] == Replied(202) && (s.threads[t].id, s.threads[j].process) in r.kills
  {
    hide Run, JobInv, CancelInv, LockInv;
    InvHolds(steps);
    var s := Run(Initial(), steps);
    var s1 := Next(s, Read(t));
    assert s1.threads[t] == CancelRead(s.threads[t].id, Some(s.threads[j].process));
    var s2 := Next(s1, Poll(t));
    assert s2.threads[t] == CancelKilling(s.threads[t].id, s.threads[j].process);
  }

  /** The process of a job runs and is not published. */
  function Unpublished(job: JobId): State {
    State(Some(0), None, None, map[7 := ProcessState(job, true)], map[0 := Spawned(job, 7)], {})
  }

  lemma ToUnpublished(job: JobId)
    ensures Next(Next(Next(Initial(), ArriveJob(0, job)), Acquire(0)), Spawn(0, 7)) == Unpublished(job)
  {
    var s1 := Next(Initial(), ArriveJob(0, job));
    var s2 := Next(s1, Acquire(0));
    assert s2 == State(Some(0), None, None, map[], map[0 := Holding(job)], {});
  }

  lemma MissesUnpublished(job: JobId)
    ensures Next(Next(Next(Unpublished(job), ArriveCancel(1, job)), Read(1)), Poll(1))
         == At(Unpublished(job), 1, Replied(404))
  {
    var s := Unpublished(job);
    assert Next(s, ArriveCancel(1, job)) == At(s, 1, CancelArrived(job));
    assert Next(At(s, 1, CancelArrived(job)), Read(1)) == At(s, 1, CancelRead(job, None));
    assert Next(At(s, 1, CancelRead(job, None)), Poll(1)) == At(s, 1, Replied(404));
  }

  /** So a job that runs can escape a cancellation that comes before its process is published. */
  lemma CancelCanMiss(job: JobId)
    ensures var s := Run(Initial(),
                         [ArriveJob(0, job), Acquire(0), Spawn(0, 7), ArriveCancel(1, job), Read(1), Poll(1)]);
            Runs(s, 7) && s.processes[7].job == job && 1 in s.threads && s.threads[1] == Replied(404) && s.kills == {}
  {
    hide Next, Run;
    NoSteps();
    SixMore([], ArriveJob(0, job), Acquire(0), Spawn(0, 7), ArriveCancel(1, job), Read(1), Poll(1));
    var steps := [ArriveJob(0, job), Acquire(0), Spawn(0, 7), ArriveCancel(1, job), Read(1), Poll(1)];
    assert [] + steps == steps;
    ToUnpublished(job);
    MissesUnpublished(job);
  }

  lemma NoSteps()
    ensures Run(Initial(), []) == Initial()
  {
  }

  lemma SixMore(front: seq<Step>, a: Step, b: Step, c: Step, d: Step, e: Step, f: Step)
    ensures Run(Initial(), front + [a, b, c, d, e, f]) ==
            Next(Next(Next(Next(Next(Next(Run(Initial(), front), a), b), c), d), e), f)
  {
    hide Next;
    var steps, n := front + [a, b, c, d, e, f], |front|;
    RunLast(steps, n + 6);
    RunLast(steps, n + 5);
    RunLast(steps, n + 4);
    RunLast(steps, n + 3);
    RunLast(steps, n + 2);
    RunLast(steps, n + 1);
    assert steps[..n] == front && steps[..n + 6] == steps;
  }

  lemma RunLast(steps: seq<Step>, n: nat)
    requires 0 < n <= |steps|
    ensures Run(Initial(), steps[..n]) == Next(Run(Initial(), steps[..n - 1]), steps[n - 1])
  {
    assert steps[..n][..n - 1] == steps[..n - 1];
  }
}
