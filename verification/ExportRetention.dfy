/** How long rows have to be kept for the daily limit to be one on creations: it is exactly a limit on
    the creations of every 24 hours when no row is deleted in its first 24 hours. */
module ExportRetention {
  import opened Outcomes
  import opened Sets
  import opened ExportJobs

  /** Rows are deleted at the given age or later. */
  ghost predicate KeptFor(init: State, steps: seq<Step>, age: Time) {
    forall i :: 0 <= i < |steps| && steps[i].Delete? ==> OldEnough(Run(init, steps[..i]), steps[i], age)
  }

  predicate OldEnough(s: State, step: Step, age: Time)
    requires step.Delete?
  {
    step.id in s.jobs ==> step.now - s.jobs[step.id].createdAt >= age
  }

  /** All deletions so far are not after the given time. */
  ghost predicate DeletedBy(steps: seq<Step>, time: Time) {
    forall i :: 0 <= i < |steps| && steps[i].Delete? ==> steps[i].now <= time
  }

  /** A row that is inserted after a deletion is not created before it. */
  ghost predicate ClockGoesOn(steps: seq<Step>) {
    forall j :: 0 <= j < |steps| && steps[j].Insert? ==> DeletedBy(steps[..j], steps[j].createdAt)
  }

  ghost predicate LimitHolds(s: State) {
    forall from: Time :: |Logged(s.log, from)| <= s.maxDaily
  }

  // --- Keeping rows for more than 24 hours is enough ---

  function LoggedSince(log: map<JobId, Time>, from: Time): set<JobId> {
    set id | id in log && log[id] >= from
  }

  /** What is gone was created more than 24 hours before anything that is inserted from now on. */
  ghost predicate GoneInv(s: State, steps: seq<Step>) {
    forall time, id :: DeletedBy(steps, time) && id in s.log && id !in s.jobs ==> s.log[id] < time - DAY
  }

  /** There is room in the log for the row that is about to be committed. */
  ghost predicate RoomInv(s: State) {
    forall t :: t in s.requests && s.requests[t].Inserted? ==>
      |LoggedSince(s.log, s.requests[t].job.createdAt - DAY)| < s.maxDaily
  }

  lemma RowsStay(s: State, step: Step)
    ensures forall id :: id in s.jobs && !(step.Delete? && step.id == id) ==> id in Next(s, step).jobs
  {
    hide Outstanding, Since, Claimed, Finished;
  }

  lemma GoneKept(s: State, front: seq<Step>, step: Step, age: Time)
    requires LogInv(s) && GoneInv(s, front) && age > DAY && (step.Delete? ==> OldEnough(s, step, age))
    ensures GoneInv(Next(s, step), front + [step])
  {
    hide Next;
    var n := Next(s, step);
    RowsStay(s, step);
    LogIs(s, step);
    OnlyCommitAdds(s, step);
    forall time, id | DeletedBy(front + [step], time) && id in n.log && id !in n.jobs ensures n.log[id] < time - DAY {
      assert DeletedBy(front, time) by {
        assert forall i :: 0 <= i < |front| ==> (front + [step])[i] == front[i];
      }
      assert step.Delete? ==> step.now <= time by { assert (front + [step])[|front|] == step; }
    }
  }

  /** What an insertion finds in the log is still in the table. */
  lemma RoomAtInsert(s: State, front: seq<Step>, now: Time, createdAt: Time)
    requires LogInv(s) && GoneInv(s, front) && DeletedBy(front, createdAt) && createdAt >= now
    requires |Since(s.jobs, now - DAY)| < s.maxDaily
    ensures |LoggedSince(s.log, createdAt - DAY)| < s.maxDaily
  {
    SmallerSet(LoggedSince(s.log, createdAt - DAY), Since(s.jobs, now - DAY));
  }

  lemma RoomKept(s: State, front: seq<Step>, step: Step)
    requires LockInv(s) && LogInv(s) && CountInv(s) && GoneInv(s, front) && RoomInv(s)
    requires step.Insert? ==> DeletedBy(front, step.createdAt)
    ensures RoomInv(Next(s, step))
  {
    hide Outstanding, Since, LoggedSince, Claimed, Finished, GoneInv, DeletedBy;
    LogIs(s, step);
    if step.Insert? && IsAt(s, step.t) && s.requests[step.t].Checked? && step.createdAt >= s.requests[step.t].now {
      assert StillPasses(s, s.requests[step.t]);
      RoomAtInsert(s, front, s.requests[step.t].now, step.createdAt);
    }
  }

  lemma LimitKept(s: State, step: Step)
    requires RoomInv(s) && LimitHolds(s)
    ensures LimitHolds(Next(s, step))
  {
    hide Next;
    LogIs(s, step);
    LimitsStay(s, step);
    if IsCommit(s, step) {
      var r := s.requests[step.t];
      var log := s.log[r.id := r.job.createdAt];
      forall from: Time ensures |Logged(log, from)| <= s.maxDaily {
        var window := Logged(log, from);
        if r.id in window {
          SmallerSet(window, LoggedSince(s.log, r.job.createdAt - DAY) + {r.id});
        } else {
          SmallerSet(window, Logged(s.log, from));
        }
      }
    }
  }

  lemma {:induction false} Kept(maxOutstanding: nat, maxDaily: nat, steps: seq<Step>, age: Time)
    requires age > DAY && KeptFor(Initial(maxOutstanding, maxDaily), steps, age) && ClockGoesOn(steps)
    ensures var s := Run(Initial(maxOutstanding, maxDaily), steps); GoneInv(s, steps) && RoomInv(s) && LimitHolds(s)
  {
    hide Next, GoneInv, RoomInv, LimitHolds, LockInv, LogInv, CountInv, OutstandingInv, WindowInv, CompleteInv,
         OldEnough, DeletedBy;
    var init := Initial(maxOutstanding, maxDaily);
    if |steps| > 0 {
      var front, step := steps[..|steps| - 1], steps[|steps| - 1];
      assert forall i :: 0 <= i < |front| ==> front[..i] == steps[..i] && front[i] == steps[i];
      Kept(maxOutstanding, maxDaily, front, age);
      InvHolds(maxOutstanding, maxDaily, front);
      var s := Run(init, front);
      GoneKept(s, front, step, age);
      RoomKept(s, front, step);
      LimitKept(s, step);
      assert steps == front + [step];
    } else {
      NothingYet(maxOutstanding, maxDaily);
    }
  }

  lemma NothingYet(maxOutstanding: nat, maxDaily: nat)
    ensures var s := Initial(maxOutstanding, maxDaily); GoneInv(s, []) && RoomInv(s) && LimitHolds(s)
  {
    var s := Initial(maxOutstanding, maxDaily);
    forall from: Time ensures |Logged(s.log, from)| <= maxDaily { NothingLogged(from); }
  }

  // --- Deleting them earlier is too early ---

  /** The steps of an admission that nothing interrupts. */
  function Admission(t: Transaction, id: JobId, now: Time): (steps: seq<Step>)
    ensures forall i :: 0 <= i < |steps| ==> !steps[i].Delete? && (steps[i].Insert? ==> steps[i].createdAt == now)
  {
    [Create(t, now), TakeLock(t), Count(t), CheckDay(t), Insert(t, id, now), Commit(t)]
  }

  lemma {:induction false} RunMore(s: State, a: seq<Step>, b: seq<Step>)
    ensures Run(s, a + b) == Run(Run(s, a), b)
  {
    hide Next;
    if |b| > 0 {
      RunMore(s, a, b[..|b| - 1]);
      assert (a + b)[..|a + b| - 1] == a + b[..|b| - 1];
    } else {
      assert a + b == a;
    }
  }

  lemma RunOne(s: State, step: Step, rest: seq<Step>)
    ensures Run(s, [step] + rest) == Run(Next(s, step), rest)
  {
    hide Next;
    RunMore(s, [step], rest);
    assert [step][..0] == [];
  }

  lemma RunTwo(s: State, a: Step, b: Step)
    ensures Run(s, [a, b]) == Next(Next(s, a), b)
  {
    hide Next;
    RunOne(s, a, [b]);
    RunOne(Next(s, a), b, []);
    assert [a] + [b] == [a, b] && [b] + [] == [b];
  }

  lemma RunSix(s: State, a: Step, b: Step, c: Step, d: Step, e: Step, f: Step)
    ensures Run(s, [a, b, c, d, e, f]) == Next(Next(Next(Next(Next(Next(s, a), b), c), d), e), f)
  {
    hide Next;
    RunMore(s, [a, b], [c, d, e, f]);
    RunMore(Run(s, [a, b]), [c, d], [e, f]);
    assert [a, b] + [c, d, e, f] == [a, b, c, d, e, f] && [c, d] + [e, f] == [c, d, e, f];
    RunTwo(s, a, b);
    RunTwo(Run(s, [a, b]), c, d);
    RunTwo(Run(Run(s, [a, b]), [c, d]), e, f);
  }

  lemma AtTwice(s: State, t: Transaction, p: Place, q: Place)
    ensures At(At(s, t, p), t, q) == At(s, t, q)
  {
    assert s.requests[t := p][t := q] == s.requests[t := q];
  }

  /** A state in which an admission passes both counts. */
  ghost predicate HasRoom(s: State, t: Transaction, id: JobId, now: Time) {
    && s.lock.None? && t !in s.requests && id !in s.log
    && |Outstanding(s.jobs)| < s.maxOutstanding && |Since(s.jobs, now - DAY)| < s.maxDaily
  }

  lemma Passed(s: State, t: Transaction, id: JobId, now: Time)
    requires HasRoom(s, t, id, now)
    ensures Next(Next(Next(Next(s, Create(t, now)), TakeLock(t)), Count(t)), CheckDay(t))
         == At(s, t, Checked(now)).(lock := Some(t))
  {
    hide Outstanding, Since;
    var held := s.(lock := Some(t));
    AtTwice(s, t, Admitting(now), Locked(now));
    assert Next(Next(s, Create(t, now)), TakeLock(t)) == At(held, t, Locked(now));
    AtTwice(held, t, Locked(now), Counted(now));
    assert Next(At(held, t, Locked(now)), Count(t)) == At(held, t, Counted(now));
    AtTwice(held, t, Counted(now), Checked(now));
  }

  function WithJob(s: State, t: Transaction, id: JobId, now: Time, status: Status): State {
    State(s.maxOutstanding, s.maxDaily, None, s.jobs[id := Job(status, now, false)], s.requests[t := Accepted],
          s.log[id := now])
  }

  lemma InsertedAndCommitted(s: State, t: Transaction, id: JobId, now: Time)
    requires id !in s.log
    ensures Next(Next(At(s, t, Checked(now)), Insert(t, id, now)), Commit(t)) == WithJob(s, t, id, now, Pending)
  {
    hide Outstanding, Since, Claimed, Finished;
    var place := Inserted(now, id, Job(Pending, now, false));
    AtTwice(s, t, Checked(now), place);
    AtTwice(s, t, place, Accepted);
  }

  lemma Admitted(s: State, t: Transaction, id: JobId, now: Time)
    requires HasRoom(s, t, id, now)
    ensures Run(s, Admission(t, id, now)) == WithJob(s, t, id, now, Pending)
  {
    hide Run, Outstanding, Since, Claimed, Finished;
    Passed(s, t, id, now);
    RunSix(s, Create(t, now), TakeLock(t), Count(t), CheckDay(t), Insert(t, id, now), Commit(t));
    InsertedAndCommitted(s.(lock := Some(t)), t, id, now);
  }

  /** The two limits of the source, for a request that reads the clock at `now`. */
  ghost predicate MayCreate(s: State, now: Time) {
    && |set id | id in s.jobs && s.jobs[id].status !in {Completed, Failed, Cancelled}| < s.maxOutstanding
    && |set id | id in s.jobs && s.jobs[id].createdAt >= now - 86400.0| < s.maxDaily
  }

  lemma LimitsAre(s: State, now: Time)
    ensures MayCreate(s, now) <==> |Outstanding(s.jobs)| < s.maxOutstanding && |Since(s.jobs, now - DAY)| < s.maxDaily
  {
    var outstanding := set id | id in s.jobs && s.jobs[id].status !in {Completed, Failed, Cancelled};
    var recent := set id | id in s.jobs && s.jobs[id].createdAt >= now - 86400.0;
    assert Outstanding(s.jobs) == outstanding;
    assert Since(s.jobs, now - DAY) == recent;
  }

  lemma RefusedByCount(s: State, t: Transaction, id: JobId, now: Time)
    requires s.lock.None? && t !in s.requests && |Outstanding(s.jobs)| >= s.maxOutstanding
    ensures Run(s, Admission(t, id, now)) == At(s, t, Refused)
  {
    hide Run, Outstanding, Since, Claimed, Finished;
    RunSix(s, Create(t, now), TakeLock(t), Count(t), CheckDay(t), Insert(t, id, now), Commit(t));
    var held := s.(lock := Some(t));
    AtTwice(s, t, Admitting(now), Locked(now));
    assert Next(Next(s, Create(t, now)), TakeLock(t)) == At(held, t, Locked(now));
    AtTwice(held, t, Locked(now), Refused);
    assert Next(At(held, t, Locked(now)), Count(t)) == At(s, t, Refused);
  }

  lemma RefusedByDay(s: State, t: Transaction, id: JobId, now: Time)
    requires s.lock.None? && t !in s.requests && |Outstanding(s.jobs)| < s.maxOutstanding
    requires |Since(s.jobs, now - DAY)| >= s.maxDaily
    ensures Run(s, Admission(t, id, now)) == At(s, t, Refused)
  {
    hide Run, Outstanding, Since, Claimed, Finished;
    RunSix(s, Create(t, now), TakeLock(t), Count(t), CheckDay(t), Insert(t, id, now), Commit(t));
    var held := s.(lock := Some(t));
    AtTwice(s, t, Admitting(now), Locked(now));
    assert Next(Next(s, Create(t, now)), TakeLock(t)) == At(held, t, Locked(now));
    AtTwice(held, t, Locked(now), Counted(now));
    assert Next(At(held, t, Locked(now)), Count(t)) == At(held, t, Counted(now));
    AtTwice(held, t, Counted(now), Refused);
    assert Next(At(held, t, Counted(now)), CheckDay(t)) == At(s, t, Refused);
  }

  /** A request that is not disturbed creates its job exactly when fewer jobs than the one limit are
      outstanding and fewer than the other were created in the last 24 hours; else it changes no job. */
  lemma AdmissionExact(s: State, t: Transaction, id: JobId, now: Time)
    requires s.lock.None? && t !in s.requests && id !in s.log
    ensures Run(s, Admission(t, id, now)) ==
      if MayCreate(s, now)
      then s.(requests := s.requests[t := Accepted], jobs := s.jobs[id := Job(Pending, now, false)],
              log := s.log[id := now])
      else s.(requests := s.requests[t := Refused])
  {
    hide Run, Outstanding, Since, MayCreate, Admission;
    LimitsAre(s, now);
    if MayCreate(s, now) {
      Admitted(s, t, id, now);
    } else if |Outstanding(s.jobs)| >= s.maxOutstanding {
      RefusedByCount(s, t, id, now);
    } else {
      RefusedByDay(s, t, id, now);
    }
  }

  /** One job after the other, all at time 0, each finished before the next. */
  function Rounds(n: nat): (steps: seq<Step>)
    ensures forall i :: 0 <= i < |steps| ==> !steps[i].Delete?
  {
    if n == 0 then [] else Rounds(n - 1) + Round(n - 1)
  }

  function Round(id: JobId): (steps: seq<Step>)
    ensures forall i :: 0 <= i < |steps| ==> !steps[i].Delete?
  {
    Admission(id, id, 0.0) + [Claim(id), Finish(id, Completed)]
  }

  function Below(n: nat): (r: set<nat>)
    ensures |r| == n && forall x: nat :: x in r <==> x < n
  {
    if n == 0 then {} else Below(n - 1) + {n - 1}
  }

  /** The state after n of them. */
  function Served(maxOutstanding: nat, maxDaily: nat, n: nat): State {
    State(maxOutstanding, maxDaily, None, map id | id in Below(n) :: Job(Completed, 0.0, false),
          map t | t in Below(n) :: Accepted, map id | id in Below(n) :: 0.0)
  }

  lemma ServedHasRoom(maxOutstanding: nat, maxDaily: nat, n: nat)
    requires maxOutstanding > 0 && n < maxDaily
    ensures HasRoom(Served(maxOutstanding, maxDaily, n), n, n, 0.0)
  {
    var jobs := Served(maxOutstanding, maxDaily, n).jobs;
    assert Outstanding(jobs) == {};
    assert Since(jobs, 0.0 - DAY) == Below(n);
  }

  lemma ServedOne(maxOutstanding: nat, maxDaily: nat, n: nat)
    requires maxOutstanding > 0 && n < maxDaily
    ensures Run(Served(maxOutstanding, maxDaily, n), Round(n)) == Served(maxOutstanding, maxDaily, n + 1)
  {
    hide Run, Admission, HasRoom;
    var s := Served(maxOutstanding, maxDaily, n);
    ServedHasRoom(maxOutstanding, maxDaily, n);
    Admitted(s, n, n, 0.0);
    RunMore(s, Admission(n, n, 0.0), [Claim(n), Finish(n, Completed)]);
    var admitted := WithJob(s, n, n, 0.0, Pending);
    RunTwo(admitted, Claim(n), Finish(n, Completed));
    WorkedOff(s, n);
    ServedNext(maxOutstanding, maxDaily, n);
  }

  lemma WorkedOff(s: State, n: nat)
    ensures Next(Next(WithJob(s, n, n, 0.0, Pending), Claim(n)), Finish(n, Completed)) ==
            WithJob(s, n, n, 0.0, Completed)
  {
    var j := Job(Pending, 0.0, false);
    assert Finished(Claimed(j), Completed) == Job(Completed, 0.0, false);
    assert s.jobs[n := j][n := Claimed(j)][n := Finished(Claimed(j), Completed)] ==
           s.jobs[n := Job(Completed, 0.0, false)];
  }

  lemma ServedNext(maxOutstanding: nat, maxDaily: nat, n: nat)
    ensures WithJob(Served(maxOutstanding, maxDaily, n), n, n, 0.0, Completed) ==
            Served(maxOutstanding, maxDaily, n + 1)
  {
    var a, b := Served(maxOutstanding, maxDaily, n), Served(maxOutstanding, maxDaily, n + 1);
    assert a.jobs[n := Job(Completed, 0.0, false)] == b.jobs;
    assert a.requests[n := Accepted] == b.requests;
    assert a.log[n := 0.0] == b.log;
  }

  lemma {:induction false} RoundsServe(maxOutstanding: nat, maxDaily: nat, n: nat)
    requires maxOutstanding > 0 && n <= maxDaily
    ensures Run(Initial(maxOutstanding, maxDaily), Rounds(n)) == Served(maxOutstanding, maxDaily, n)
  {
    hide Next, Served, Round;
    if n == 0 {
      NoneServed(maxOutstanding, maxDaily);
    } else {
      RoundsServe(maxOutstanding, maxDaily, n - 1);
      RunMore(Initial(maxOutstanding, maxDaily), Rounds(n - 1), Round(n - 1));
      ServedOne(maxOutstanding, maxDaily, n - 1);
    }
  }

  lemma NoneServed(maxOutstanding: nat, maxDaily: nat)
    ensures Served(maxOutstanding, maxDaily, 0) == Initial(maxOutstanding, maxDaily)
  {
  }

  /** As many jobs as a day allows, the deletion of the first, and one job more. */
  function Overrun(maxDaily: nat, age: Time): seq<Step> {
    Rounds(maxDaily) + ([Delete(0, age)] + Admission(maxDaily, maxDaily, age))
  }

  lemma OverrunIs(maxOutstanding: nat, maxDaily: nat, age: Time)
    requires maxOutstanding > 0 && maxDaily > 0 && age <= DAY
    ensures var s := Served(maxOutstanding, maxDaily, maxDaily);
            Run(Initial(maxOutstanding, maxDaily), Overrun(maxDaily, age)).log == s.log[maxDaily := age]
  {
    hide Run, Admission, Next;
    var init, s := Initial(maxOutstanding, maxDaily), Served(maxOutstanding, maxDaily, maxDaily);
    RunMore(init, Rounds(maxDaily), [Delete(0, age)] + Admission(maxDaily, maxDaily, age));
    RoundsServe(maxOutstanding, maxDaily, maxDaily);
    RunOne(s, Delete(0, age), Admission(maxDaily, maxDaily, age));
    RoomAgain(maxOutstanding, maxDaily, age);
    Admitted(s.(jobs := s.jobs - {0}), maxDaily, maxDaily, age);
  }

  lemma RoomAgain(maxOutstanding: nat, maxDaily: nat, age: Time)
    requires maxOutstanding > 0 && maxDaily > 0 && age <= DAY
    ensures var s := Served(maxOutstanding, maxDaily, maxDaily);
            && Next(s, Delete(0, age)) == s.(jobs := s.jobs - {0})
            && HasRoom(s.(jobs := s.jobs - {0}), maxDaily, maxDaily, age)
  {
    var s := Served(maxOutstanding, maxDaily, maxDaily);
    var jobs := s.jobs - {0};
    assert Outstanding(jobs) == {};
    assert Since(jobs, age - DAY) == Below(maxDaily) - {0};
  }

  /** The run deletes at that age and no earlier, and its clock goes on. */
  lemma OverrunIsFair(maxOutstanding: nat, maxDaily: nat, age: Time)
    requires maxOutstanding > 0 && maxDaily > 0
    ensures KeptFor(Initial(maxOutstanding, maxDaily), Overrun(maxDaily, age), age)
    ensures ClockGoesOn(Overrun(maxDaily, age))
  {
    hide Run, Admission, Rounds;
    var init, steps, k := Initial(maxOutstanding, maxDaily), Overrun(maxDaily, age), |Rounds(maxDaily)|;
    OneDeletion(maxDaily, age);
    RoundsServe(maxOutstanding, maxDaily, maxDaily);
    assert steps[..k] == Rounds(maxDaily);
    forall j | 0 <= j < |steps| && steps[j].Insert? ensures DeletedBy(steps[..j], steps[j].createdAt) {
    }
  }

  lemma OneDeletion(maxDaily: nat, age: Time)
    ensures var steps, k := Overrun(maxDaily, age), |Rounds(maxDaily)|;
            && |steps| > k && steps[k] == Delete(0, age)
            && (forall i :: 0 <= i < |steps| && steps[i].Delete? ==> i == k)
            && (forall i :: k < i < |steps| && steps[i].Insert? ==> steps[i].createdAt == age)
  {
    hide Rounds;
    RoundsKeep(maxDaily);
  }

  lemma RoundsKeep(n: nat)
    ensures forall i :: 0 <= i < |Rounds(n)| ==> !Rounds(n)[i].Delete?
  {
  }

  /** A row that may be deleted within its first 24 hours is forgotten by the daily limit: whatever the
      limits, one job more than the daily limit can then be created within 24 hours. */
  lemma DeletionIsForgotten(maxOutstanding: nat, maxDaily: nat, age: Time)
    requires maxOutstanding > 0 && maxDaily > 0 && 0.0 <= age <= DAY
    ensures var init, steps := Initial(maxOutstanding, maxDaily), Overrun(maxDaily, age);
            && KeptFor(init, steps, age) && ClockGoesOn(steps)
            && |Logged(Run(init, steps).log, 0.0)| == maxDaily + 1
  {
    hide Run, KeptFor, ClockGoesOn, Overrun;
    OverrunIsFair(maxOutstanding, maxDaily, age);
    OverrunIs(maxOutstanding, maxDaily, age);
    var log := Served(maxOutstanding, maxDaily, maxDaily).log[maxDaily := age];
    assert Logged(log, 0.0) == Below(maxDaily + 1);
  }

  /** The exact condition: the daily limit bounds the creations of every 24 hours, in every run, if and
      only if rows are kept for more than 24 hours. */
  lemma RetentionExact(maxOutstanding: nat, maxDaily: nat, age: Time)
    requires maxOutstanding > 0 && maxDaily > 0 && age >= 0.0
    ensures (forall steps :: KeptFor(Initial(maxOutstanding, maxDaily), steps, age) && ClockGoesOn(steps) ==>
               LimitHolds(Run(Initial(maxOutstanding, maxDaily), steps)))
            <==> age > DAY
  {
    hide Run, KeptFor, ClockGoesOn, Logged, Overrun;
    var init := Initial(maxOutstanding, maxDaily);
    if age > DAY {
      forall steps | KeptFor(init, steps, age) && ClockGoesOn(steps) ensures LimitHolds(Run(init, steps)) {
        Kept(maxOutstanding, maxDaily, steps, age);
      }
    } else {
      DeletionIsForgotten(maxOutstanding, maxDaily, age);
      InvHolds(maxOutstanding, maxDaily, Overrun(maxDaily, age));
      assert !LimitHolds(Run(init, Overrun(maxDaily, age)));
    }
  }
}
