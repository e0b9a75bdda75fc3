/** Export jobs of one user: admission under the lock of the user's row, cancellation by
    compare-and-set, and the worker, as atomic steps of transactions in any order. */
module ExportJobs {
  import opened Outcomes
  import opened Sets

  type JobId = nat

  type Transaction = nat

  /** Seconds. */
  type Time = real

  const DAY: Time := 86400.0

  datatype Status = Pending | Processing | Completed | Failed | Cancelled

  datatype Job = Job(status: Status, createdAt: Time, cancelRequested: bool)

  /** Where a request is. */
  datatype Place =
    | Admitting(now: Time)                        // before the row lock
    | Locked(now: Time)
    | Counted(now: Time)                          // few enough are outstanding
    | Checked(now: Time)                          // few enough were created in the last 24 hours
    | Inserted(now: Time, id: JobId, job: Job)    // not yet visible to others
    | Cancelling(id: JobId)                       // before the job is read
    | Seen(id: JobId, status: Status)
    | Accepted
    | Refused

  datatype State = State(
    maxOutstanding: nat,
    maxDaily: nat,
    lock: Option<Transaction>,
    jobs: map<JobId, Job>,
    requests: map<Transaction, Place>,
    log: map<JobId, Time>)                        // every creation, whatever became of the job

  datatype Step =
    | Create(t: Transaction, now: Time)
    | TakeLock(t: Transaction)
    | Count(t: Transaction)
    | CheckDay(t: Transaction)
    | Insert(t: Transaction, id: JobId, createdAt: Time)
    | Commit(t: Transaction)
    | Abort(t: Transaction)
    | Cancel(t: Transaction, id: JobId)
    | Look(t: Transaction)
    | Update(t: Transaction)
    | Claim(id: JobId)                            // the worker
    | Finish(id: JobId, status: Status)
    | Delete(id: JobId, now: Time)                // retention, or the scan is deleted

  function Initial(maxOutstanding: nat, maxDaily: nat): State {
    State(maxOutstanding, maxDaily, None, map[], map[], map[])
  }

  predicate IsTerminal(s: Status) { s.Completed? || s.Failed? || s.Cancelled? }

  function Outstanding(jobs: map<JobId, Job>): set<JobId> {
    set id | id in jobs && !IsTerminal(jobs[id].status)
  }

  function Since(jobs: map<JobId, Job>, from: Time): set<JobId> {
    set id | id in jobs && jobs[id].createdAt >= from
  }

  /** Between taking the row lock and the end of the transaction. */
  predicate HoldsLock(p: Place) { p.Locked? || p.Counted? || p.Checked? || p.Inserted? }

  function At(s: State, t: Transaction, p: Place): State {
    s.(requests := s.requests[t := p])
  }

  predicate IsAt(s: State, t: Transaction) { t in s.requests }

  /** `UPDATE ... WHERE status = ...`: the row, if it still has that status. */
  function WithCancel(j: Job): Job { j.(status := Cancelled, cancelRequested := true) }

  /** The worker's updates: a claim, and the three ways to finish, of which completion asks that no
      cancellation has been requested. */
  function Claimed(j: Job): Job {
    if (j.status.Pending? || j.status.Processing?) && !j.cancelRequested then j.(status := Processing) else j
  }

  function Finished(j: Job, status: Status): Job {
    if !j.status.Processing? || !IsTerminal(status) || (status.Completed? && j.cancelRequested) then j
    else j.(status := status, cancelRequested := j.cancelRequested || status.Cancelled?)
  }

  /** The state after a step; a step that cannot be taken changes nothing. */
  function Next(s: State, step: Step): State {
    match step
    case Create(t, now) => if IsAt(s, t) then s else At(s, t, Admitting(now))
    case TakeLock(t) =>
      if IsAt(s, t) && s.requests[t].Admitting? && s.lock.None?
      then At(s, t, Locked(s.requests[t].now)).(lock := Some(t)) else s
    case Count(t) =>
      if !(IsAt(s, t) && s.requests[t].Locked?) then s
      else if |Outstanding(s.jobs)| < s.maxOutstanding then At(s, t, Counted(s.requests[t].now))
      else At(s, t, Refused).(lock := None)
    case CheckDay(t) =>
      if !(IsAt(s, t) && s.requests[t].Counted?) then s
      else if |Since(s.jobs, s.requests[t].now - DAY)| < s.maxDaily then At(s, t, Checked(s.requests[t].now))
      else At(s, t, Refused).(lock := None)
    case Insert(t, id, createdAt) =>
      if IsAt(s, t) && s.requests[t].Checked? && id !in s.log && createdAt >= s.requests[t].now
      then At(s, t, Inserted(s.requests[t].now, id, Job(Pending, createdAt, false))) else s
    case Commit(t) =>
      if !(IsAt(s, t) && s.requests[t].Inserted?) then s
      else
        var r := s.requests[t];
        At(s, t, Accepted).(lock := None, jobs := s.jobs[r.id := r.job], log := s.log[r.id := r.job.createdAt])
    case Abort(t) =>
      if IsAt(s, t) && HoldsLock(s.requests[t]) then At(s, t, Refused).(lock := None) else s
    case Cancel(t, id) => if IsAt(s, t) then s else At(s, t, Cancelling(id))
    case Look(t) =>
      if !(IsAt(s, t) && s.requests[t].Cancelling?) then s
      else
        var id := s.requests[t].id;
        if id !in s.jobs then At(s, t, Refused) else At(s, t, Seen(id, s.jobs[id].status))
    case Update(t) =>
      if !(IsAt(s, t) && s.requests[t].Seen?) then s
      else
        var id, status := s.requests[t].id, s.requests[t].status;
        if IsTerminal(status) || id !in s.jobs || s.jobs[id].status != status then At(s, t, Refused)
        else
          At(s, t, Accepted).(jobs := s.jobs[id := if status.Pending? then WithCancel(s.jobs[id])
                                                   else s.jobs[id].(cancelRequested := true)])
    case Claim(id) => if id in s.jobs then s.(jobs := s.jobs[id := Claimed(s.jobs[id])]) else s
    case Finish(id, status) => if id in s.jobs then s.(jobs := s.jobs[id := Finished(s.jobs[id], status)]) else s
    case Delete(id, _) => s.(jobs := s.jobs - {id})
  }

  function Run(s: State, steps: seq<Step>): State {
    if |steps| == 0 then s else Next(Run(s, steps[..|steps| - 1]), steps[|steps| - 1])
  }

  // --- The invariants ---

  ghost predicate LockInv(s: State) {
    && (forall t :: t in s.requests && HoldsLock(s.requests[t]) ==> s.lock == Some(t))
    && (s.lock.Some? ==> s.lock.value in s.requests && HoldsLock(s.requests[s.lock.value]))
  }

  /** A row that is there has been created, at the time it says. */
  ghost predicate LogInv(s: State) {
    && (forall id :: id in s.jobs ==> id in s.log && s.log[id] == s.jobs[id].createdAt)
    && (forall t :: t in s.requests && s.requests[t].Inserted? ==>
          && s.requests[t].id !in s.log
          && s.requests[t].job.createdAt >= s.requests[t].now
          && s.requests[t].job.status.Pending?)
  }

  predicate PassedCount(p: Place) { p.Counted? || p.Checked? || p.Inserted? }

  predicate PassedDay(p: Place) { p.Checked? || p.Inserted? }

  ghost predicate StillPasses(s: State, p: Place) {
    && (PassedCount(p) ==> |Outstanding(s.jobs)| < s.maxOutstanding)
    && (PassedDay(p) ==> |Since(s.jobs, p.now - DAY)| < s.maxDaily)
  }

  /** What the holder of the lock has counted stays an upper bound. */
  ghost predicate CountInv(s: State) {
    forall t :: t in s.requests ==> StillPasses(s, s.requests[t])
  }

  ghost predicate OutstandingInv(s: State) { |Outstanding(s.jobs)| <= s.maxOutstanding }

  function Window(jobs: map<JobId, Job>, from: Time): set<JobId> {
    set id | id in jobs && from <= jobs[id].createdAt <= from + DAY
  }

  ghost predicate WindowInv(s: State) {
    forall from: Time :: |Window(s.jobs, from)| <= s.maxDaily
  }

  /** A completed job was not to be cancelled. */
  ghost predicate CompleteInv(s: State) {
    forall id :: id in s.jobs && s.jobs[id].status.Completed? ==> !s.jobs[id].cancelRequested
  }

  /** The jobs that are left of those before, none of them created anew or outstanding again. */
  ghost predicate Progress(before: map<JobId, Job>, jobs: map<JobId, Job>) {
    forall id :: id in jobs ==>
      && id in before && jobs[id].createdAt == before[id].createdAt
      && (IsTerminal(before[id].status) ==> jobs[id] == before[id])
      && (before[id].cancelRequested ==> jobs[id].cancelRequested)
  }

  predicate IsCommit(s: State, step: Step) {
    step.Commit? && IsAt(s, step.t) && s.requests[step.t].Inserted?
  }

  /** Only a commit adds a job; every other step lets the jobs progress. */
  lemma OnlyCommitAdds(s: State, step: Step)
    ensures !IsCommit(s, step) ==> Progress(s.jobs, Next(s, step).jobs)
    ensures IsCommit(s, step) ==>
      var r := s.requests[step.t]; Next(s, step).jobs == s.jobs[r.id := r.job]
  {
  }

  lemma ProgressCounts(before: map<JobId, Job>, jobs: map<JobId, Job>, from: Time)
    requires Progress(before, jobs)
    ensures |Outstanding(jobs)| <= |Outstanding(before)| && |Since(jobs, from)| <= |Since(before, from)|
    ensures |Window(jobs, from)| <= |Window(before, from)|
  {
    SmallerSet(Outstanding(jobs), Outstanding(before));
    SmallerSet(Since(jobs, from), Since(before, from));
    SmallerSet(Window(jobs, from), Window(before, from));
  }

  lemma LockKept(s: State, step: Step)
    requires LockInv(s)
    ensures LockInv(Next(s, step))
  {
    hide Outstanding, Since, Claimed, Finished;
  }

  lemma LogKept(s: State, step: Step)
    requires LockInv(s) && LogInv(s)
    ensures LogInv(Next(s, step))
  {
    hide Outstanding, Since;
  }

  /** A count that has been passed is passed with fewer jobs, too. */
  lemma StillPassing(s: State, n: State, p: Place)
    requires Progress(s.jobs, n.jobs) && n.maxOutstanding == s.maxOutstanding && n.maxDaily == s.maxDaily
    requires StillPasses(s, p)
    ensures StillPasses(n, p)
  {
    hide Outstanding, Since, Progress;
    if PassedDay(p) { ProgressCounts(s.jobs, n.jobs, p.now - DAY); }
    ProgressCounts(s.jobs, n.jobs, 0.0);
  }

  lemma CountKept(s: State, step: Step)
    requires LockInv(s) && CountInv(s)
    ensures CountInv(Next(s, step))
  {
    hide Outstanding, Since, Claimed, Finished, Progress;
    var n := Next(s, step);
    OnlyCommitAdds(s, step);
    LimitsStay(s, step);
    forall t | t in n.requests ensures StillPasses(n, n.requests[t]) {
      if t in s.requests && !IsCommit(s, step) { StillPassing(s, n, s.requests[t]); }
    }
  }

  lemma OutstandingKept(s: State, step: Step)
    requires CountInv(s) && OutstandingInv(s)
    ensures OutstandingInv(Next(s, step))
  {
    hide Next, Since, Progress;
    LimitsStay(s, step);
    OnlyCommitAdds(s, step);
    if IsCommit(s, step) {
      var r := s.requests[step.t];
      SmallerSet(Outstanding(s.jobs[r.id := r.job]), Outstanding(s.jobs) + {r.id});
    } else {
      ProgressCounts(s.jobs, Next(s, step).jobs, 0.0);
    }
  }

  lemma LimitsStay(s: State, step: Step)
    ensures Next(s, step).maxOutstanding == s.maxOutstanding && Next(s, step).maxDaily == s.maxDaily
  {
  }

  lemma WindowKept(s: State, step: Step)
    requires CountInv(s) && LogInv(s) && WindowInv(s)
    ensures WindowInv(Next(s, step))
  {
    hide Next, Outstanding, Progress;
    LimitsStay(s, step);
    OnlyCommitAdds(s, step);
    forall from: Time ensures |Window(Next(s, step).jobs, from)| <= s.maxDaily {
      if IsCommit(s, step) {
        var r := s.requests[step.t];
        var window := Window(s.jobs[r.id := r.job], from);
        if r.id in window {
          SmallerSet(window, Since(s.jobs, r.now - DAY) + {r.id});
        } else {
          SmallerSet(window, Window(s.jobs, from));
        }
      } else {
        ProgressCounts(s.jobs, Next(s, step).jobs, from);
      }
    }
  }

  lemma CompleteKept(s: State, step: Step)
    requires LogInv(s) && CompleteInv(s)
    ensures CompleteInv(Next(s, step))
  {
    hide Outstanding, Since;
  }

  ghost predicate Inv(s: State) {
    LockInv(s) && LogInv(s) && CountInv(s) && OutstandingInv(s) && WindowInv(s) && CompleteInv(s)
  }

  lemma {:induction false} InvHolds(maxOutstanding: nat, maxDaily: nat, steps: seq<Step>)
    ensures var s := Run(Initial(maxOutstanding, maxDaily), steps);
            Inv(s) && s.maxOutstanding == maxOutstanding && s.maxDaily == maxDaily
  {
    hide Next, LockInv, LogInv, CountInv, OutstandingInv, WindowInv, CompleteInv;
    if |steps| > 0 {
      var s, step := Run(Initial(maxOutstanding, maxDaily), steps[..|steps| - 1]), steps[|steps| - 1];
      InvHolds(maxOutstanding, maxDaily, steps[..|steps| - 1]);
      LockKept(s, step);
      LogKept(s, step);
      CountKept(s, step);
      OutstandingKept(s, step);
      WindowKept(s, step);
      CompleteKept(s, step);
      LimitsStay(s, step);
    } else {
      InvInitially(maxOutstanding, maxDaily);
    }
  }

  lemma InvInitially(maxOutstanding: nat, maxDaily: nat)
    ensures Inv(Initial(maxOutstanding, maxDaily))
  {
    var s := Initial(maxOutstanding, maxDaily);
    assert Outstanding(s.jobs) == {};
    forall from ensures |Window(s.jobs, from)| <= s.maxDaily {
      assert Window(s.jobs, from) == {};
    }
  }

  // --- What it means ---

  /** In every interleaving the user has no more jobs outstanding than the limit, and no more rows
      created in any 24 hours than the daily limit. */
  lemma QuotasHold(maxOutstanding: nat, maxDaily: nat, steps: seq<Step>, from: Time)
    ensures var s := Run(Initial(maxOutstanding, maxDaily), steps);
            |Outstanding(s.jobs)| <= maxOutstanding && |Window(s.jobs, from)| <= maxDaily
  {
    hide Run, Outstanding, Window, LockInv, LogInv, CountInv, CompleteInv;
    InvHolds(maxOutstanding, maxDaily, steps);
  }

  /** No step changes a terminal job, but for deleting it. */
  lemma TerminalStays(maxOutstanding: nat, maxDaily: nat, steps: seq<Step>, step: Step, id: JobId)
    requires var s := Run(Initial(maxOutstanding, maxDaily), steps); id in s.jobs && IsTerminal(s.jobs[id].status)
    ensures var s := Run(Initial(maxOutstanding, maxDaily), steps);
            id in Next(s, step).jobs ==> Next(s, step).jobs[id] == s.jobs[id]
  {
    hide Run, Next, LockInv, CountInv, OutstandingInv, WindowInv, CompleteInv;
    InvHolds(maxOutstanding, maxDaily, steps);
    OnlyCommitAdds(Run(Initial(maxOutstanding, maxDaily), steps), step);
  }

  /** A cancellation that was accepted is never overtaken by completion. */
  lemma {:induction false} CancelIsFinal(s: State, steps: seq<Step>, id: JobId)
    requires LockInv(s) && LogInv(s) && CompleteInv(s) && id in s.jobs && s.jobs[id].cancelRequested
    ensures var e := Run(s, steps);
            && LockInv(e) && LogInv(e) && CompleteInv(e) && id in e.log
            && (id in e.jobs ==> e.jobs[id].cancelRequested && !e.jobs[id].status.Completed?)
  {
    hide Next, LockInv;
    if |steps| == 0 {
    } else {
      var front, step := Run(s, steps[..|steps| - 1]), steps[|steps| - 1];
      CancelIsFinal(s, steps[..|steps| - 1], id);
      LockKept(front, step);
      LogKept(front, step);
      CompleteKept(front, step);
      OnlyCommitAdds(front, step);
      LogGrows(front, step);
    }
  }

  lemma LogGrows(s: State, step: Step)
    ensures forall id :: id in s.log ==> id in Next(s, step).log
  {
  }

  /** An accepted cancellation has set the flag of a job that was not terminal; a refused one has
      changed no job. */
  lemma UpdateIs(s: State, t: Transaction)
    requires t in s.requests && s.requests[t].Seen?
    ensures var n, id := Next(s, Update(t)), s.requests[t].id;
            && (n.requests[t].Accepted? || n.requests[t].Refused?)
            && (n.requests[t].Refused? ==> n.jobs == s.jobs)
            && (n.requests[t].Accepted? ==>
                  && id in s.jobs && id in n.jobs && n.jobs[id].cancelRequested && !IsTerminal(s.jobs[id].status)
                  && (s.jobs[id].status.Pending? ==> n.jobs[id].status.Cancelled?)
                  && n.jobs - {id} == s.jobs - {id})
  {
  }

  /** So in every run, from the request whose cancellation is accepted on, the job is not completed. */
  lemma AcceptedIsFinal(maxOutstanding: nat, maxDaily: nat, before: seq<Step>, t: Transaction, after: seq<Step>)
    requires var s := Run(Initial(maxOutstanding, maxDaily), before);
             t in s.requests && s.requests[t].Seen? && Next(s, Update(t)).requests[t].Accepted?
    ensures var s := Run(Initial(maxOutstanding, maxDaily), before);
            var id, e := s.requests[t].id, Run(Next(s, Update(t)), after);
            id in e.jobs ==> e.jobs[id].cancelRequested && !e.jobs[id].status.Completed?
  {
    hide Run, Next, LockInv, LogInv, CompleteInv, CountInv, OutstandingInv, WindowInv;
    var s := Run(Initial(maxOutstanding, maxDaily), before);
    InvHolds(maxOutstanding, maxDaily, before);
    UpdateIs(s, t);
    LockKept(s, Update(t));
    LogKept(s, Update(t));
    CompleteKept(s, Update(t));
    CancelIsFinal(Next(s, Update(t)), after, s.requests[t].id);
  }

  // --- All creations ---

  function Logged(log: map<JobId, Time>, from: Time): set<JobId> {
    set id | id in log && from <= log[id] <= from + DAY
  }

  /** Whenever a job is committed, the jobs created in the 24 hours before its request are all there. */
  ghost predicate NothingMissing(s: State, steps: seq<Step>) {
    forall i :: 0 <= i < |steps| ==> IsComplete(Run(s, steps[..i]), steps[i])
  }

  ghost predicate IsComplete(s: State, step: Step) {
    IsCommit(s, step) ==> forall id :: id in s.log && s.log[id] >= s.requests[step.t].now - DAY ==> id in s.jobs
  }

  lemma LoggedStep(s: State, step: Step, from: Time)
    requires CountInv(s) && LogInv(s) && IsComplete(s, step) && |Logged(s.log, from)| <= s.maxDaily
    ensures |Logged(Next(s, step).log, from)| <= s.maxDaily
  {
    hide Next, Outstanding;
    LogIs(s, step);
    if IsCommit(s, step) {
      var r := s.requests[step.t];
      assert StillPasses(s, r);
      var window := Logged(s.log[r.id := r.job.createdAt], from);
      if r.id in window {
        SmallerSet(window, Since(s.jobs, r.now - DAY) + {r.id});
      } else {
        SmallerSet(window, Logged(s.log, from));
      }
    }
  }

  lemma {:induction false} LoggedIsBounded(maxOutstanding: nat, maxDaily: nat, steps: seq<Step>, from: Time)
    requires NothingMissing(Initial(maxOutstanding, maxDaily), steps)
    ensures |Logged(Run(Initial(maxOutstanding, maxDaily), steps).log, from)| <= maxDaily
  {
    hide Next, Logged, IsComplete, CountInv, LogInv, OutstandingInv, WindowInv, CompleteInv, LockInv;
    var init := Initial(maxOutstanding, maxDaily);
    if |steps| > 0 {
      var front, step := steps[..|steps| - 1], steps[|steps| - 1];
      assert forall i :: 0 <= i < |front| ==> front[..i] == steps[..i];
      LoggedIsBounded(maxOutstanding, maxDaily, front, from);
      InvHolds(maxOutstanding, maxDaily, front);
      assert IsComplete(Run(init, steps[..|steps| - 1]), steps[|steps| - 1]);
      LoggedStep(Run(init, front), step, from);
    } else {
      NothingLogged(from);
    }
  }

  lemma NothingLogged(from: Time)
    ensures |Logged(map[], from)| == 0
  {
    assert Logged(map[], from) == {};
  }

  lemma LogIs(s: State, step: Step)
    ensures Next(s, step).log
         == if IsCommit(s, step) then s.log[s.requests[step.t].id := s.requests[step.t].job.createdAt] else s.log
  {
  }
}
