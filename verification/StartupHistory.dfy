/** The startup machine described by its accepted moves alone: what it accepts next, its phase, and what is shown. */
module StartupHistory {
  import opened Prelude
  import opened Startup
  import opened StartupRuns

  /** A sealed plan names the task. */
  ghost predicate Planned(acc: seq<Transition>, k: Task) {
    exists p :: SealPlan(p) in acc && k in p
  }

  ghost predicate WasSealed(acc: seq<Transition>) {
    exists p :: SealPlan(p) in acc
  }

  ghost predicate HasFailure(acc: seq<Transition>) {
    exists t :: t in acc && (t.FailTask? || t.FailPlanning?)
  }

  /** The rules of the machine: one decision first, then each planned task starts, and completes or fails, at most
      once, and nothing follows a failure. */
  ghost predicate MayFollow(acc: seq<Transition>, t: Transition) {
    match t
    case SealPlan(_) => acc == []
    case FailPlanning(_) => acc == []
    case StartTask(k) => Planned(acc, k) && StartTask(k) !in acc && !HasFailure(acc)
    case CompleteTask(k) => StartTask(k) in acc && CompleteTask(k) !in acc && !HasFailure(acc)
    case FailTask(k, _) => Planned(acc, k) && CompleteTask(k) !in acc && !HasFailure(acc)
  }

  /** The phase a history stands for. */
  ghost predicate TellsPhase(acc: seq<Transition>, phase: Phase) {
    match phase
    case Planning => acc == []
    case CloningRemoteAccounts =>
      Planned(acc, RemoteAccounts) && CompleteTask(RemoteAccounts) !in acc && !HasFailure(acc)
    case ExecutingRunbooks =>
      && !HasFailure(acc)
      && (Planned(acc, RemoteAccounts) ==> CompleteTask(RemoteAccounts) in acc)
      && exists k: Task :: Planned(acc, k) && CompleteTask(k) !in acc
    case Ready =>
      WasSealed(acc) && !HasFailure(acc) && forall k: Task :: Planned(acc, k) ==> CompleteTask(k) in acc
    case Failed => HasFailure(acc)
  }

  // ----- from the table to the history

  lemma {:induction false} EventsInto(ts: seq<Transition>, t: Transition)
    requires IsTaskMove(t) && t in ts
    ensures t in EventsOf(ts, t.task)
  {
    var init, last := ts[..|ts| - 1], ts[|ts| - 1];
    assert ts == init + [last];
    if t in init {
      EventsInto(init, t);
    }
  }

  lemma MoveInHistory(acc: seq<Transition>, t: Transition)
    requires IsTaskMove(t)
    ensures t in acc <==> t in EventsOf(acc, t.task)
  {
    if t in acc {
      EventsInto(acc, t);
    } else if t in EventsOf(acc, t.task) {
      EventsFrom(acc, t.task, t);
    }
  }

  lemma OnlySeal(tasks: seq<TaskStatus>, acc: seq<Transition>)
    requires TableTells(tasks, acc)
    ensures WasSealed(acc) && acc != []
    ensures forall k: Task :: Planned(acc, k) <==> k in Kinds(tasks)
  {
    assert acc[0] in acc && acc[0] == SealPlan(acc[0].tasks);
    forall p | SealPlan(p) in acc ensures p == acc[0].tasks {
      var i :| 0 <= i < |acc| && acc[i] == SealPlan(p);
    }
  }

  /** What an entry's state says about the moves on its task. */
  lemma EntryHistory(tasks: seq<TaskStatus>, acc: seq<Transition>, i: nat)
    requires TableTells(tasks, acc) && i < |tasks|
    ensures var k, state := tasks[i].task, tasks[i].state;
            && (state == Pending ==> StartTask(k) !in acc)
            && (state == Running || state == Succeeded ==> StartTask(k) in acc)
            && (CompleteTask(k) in acc <==> state == Succeeded)
            && (state == TaskState.Failed <==> exists e :: FailTask(k, e) in acc)
  {
    var e := tasks[i];
    var k := e.task;
    assert Tells(e, EventsOf(acc, k));
    MoveInHistory(acc, StartTask(k));
    MoveInHistory(acc, CompleteTask(k));
    forall error ensures FailTask(k, error) in acc <==> FailTask(k, error) in EventsOf(acc, k) {
      MoveInHistory(acc, FailTask(k, error));
    }
    if e.state == TaskState.Failed {
      var fail := FailTask(k, if e.error.Some? then e.error.value else "");
      assert EventsOf(acc, k)[|EventsOf(acc, k)| - 1] == fail;
      assert fail in EventsOf(acc, k);
    }
  }

  lemma TableHasFailure(tasks: seq<TaskStatus>, acc: seq<Transition>)
    requires TableTells(tasks, acc)
    ensures HasFailure(acc) <==> AnyFailed(tasks)
  {
    if AnyFailed(tasks) {
      var i :| 0 <= i < |tasks| && tasks[i].state == TaskState.Failed;
      EntryHistory(tasks, acc, i);
      var e :| FailTask(tasks[i].task, e) in acc;
    } else if HasFailure(acc) {
      var t :| t in acc && (t.FailTask? || t.FailPlanning?);
      var n :| 0 <= n < |acc| && acc[n] == t;
      assert IsTaskMove(t);
      EventsInto(acc, t);
      PlannedKind(tasks, acc, t.task);
      var i: nat :| i < |tasks| && tasks[i].task == t.task;
      EntryHistory(tasks, acc, i);
    }
  }

  /** A task with moves has an entry. */
  lemma PlannedKind(tasks: seq<TaskStatus>, acc: seq<Transition>, k: Task)
    requires TableTells(tasks, acc) && EventsOf(acc, k) != []
    ensures exists i: nat :: i < |tasks| && tasks[i].task == k
  {
    assert k in Kinds(tasks);
    var i: nat :| i < |Kinds(tasks)| && Kinds(tasks)[i] == k;
    assert tasks[i].task == k;
  }

  /** The entry a task is looked up by, and what it says. */
  lemma TaskHistory(tasks: seq<TaskStatus>, acc: seq<Transition>, k: Task)
    requires TableTells(tasks, acc)
    ensures var i := IndexOf(tasks, k);
            && (Planned(acc, k) <==> i < |tasks|)
            && (StartTask(k) in acc ==> i < |tasks| && tasks[i].state != Pending)
            && (CompleteTask(k) in acc <==> i < |tasks| && tasks[i].state == Succeeded)
            && (i < |tasks| && tasks[i].state == Running ==> StartTask(k) in acc)
            && (i < |tasks| && tasks[i].state == Succeeded ==> StartTask(k) in acc)
  {
    var i := IndexOf(tasks, k);
    OnlySeal(tasks, acc);
    MoveInHistory(acc, StartTask(k));
    MoveInHistory(acc, CompleteTask(k));
    if i < |tasks| {
      KindsMembers(tasks, i);
      EntryHistory(tasks, acc, i);
    } else {
      assert k !in Kinds(tasks);
    }
  }

  /** A ready table needs no test of its own: its entries accept nothing. */
  lemma MoveAccepted(tasks: seq<TaskStatus>, t: Transition)
    requires IsTaskMove(t)
    ensures MoveTask(tasks, t).Some? <==>
      var i := IndexOf(tasks, t.task);
      !AnyFailed(tasks) && i < |tasks| && MoveEntry(tasks[i], t).Some?
  {
    var i := IndexOf(tasks, t.task);
    if i < |tasks| && AllSucceeded(tasks) {
      assert tasks[i].state == Succeeded;
    }
  }

  lemma TableMayFollow(tasks: seq<TaskStatus>, acc: seq<Transition>, t: Transition)
    requires TableTells(tasks, acc) && IsTaskMove(t)
    ensures MoveTask(tasks, t).Some? <==> MayFollow(acc, t)
  {
    MoveAccepted(tasks, t);
    TaskHistory(tasks, acc, t.task);
    TableHasFailure(tasks, acc);
    var i := IndexOf(tasks, t.task);
    if i < |tasks| && !AnyFailed(tasks) {
      assert tasks[i].state != TaskState.Failed;
    }
  }

  lemma NothingPlanned(acc: seq<Transition>, k: Task)
    requires forall t :: t in acc ==> t.FailPlanning?
    ensures !Planned(acc, k) && !WasSealed(acc)
    ensures StartTask(k) !in acc && CompleteTask(k) !in acc
  {
  }

  /** In every run, the next attempt is accepted exactly when the rules allow it after what was accepted so far. */
  lemma AcceptedExactly(ts: seq<Transition>, t: Transition)
    ensures Next(Run(Status.Planning, ts), t).Some? <==> MayFollow(Accepted(Status.Planning, ts), t)
  {
    RunRemembers(ts);
    var s, acc := Run(Status.Planning, ts), Accepted(Status.Planning, ts);
    if s.Sealed? {
      OnlySeal(s.tasks, acc);
      if IsTaskMove(t) {
        TableMayFollow(s.tasks, acc, t);
      }
    } else if IsTaskMove(t) {
      NothingPlanned(acc, t.task);
    }
  }

  lemma TablePhase(tasks: seq<TaskStatus>, acc: seq<Transition>, phase: Phase)
    requires TableTells(tasks, acc)
    ensures PlanPhase(tasks) == phase <==> TellsPhase(acc, phase)
  {
    OnlySeal(tasks, acc);
    TableHasFailure(tasks, acc);
    forall k: Task
      ensures CompleteTask(k) in acc <==>
        IndexOf(tasks, k) < |tasks| && tasks[IndexOf(tasks, k)].state == Succeeded
    {
      TaskHistory(tasks, acc, k);
    }
    forall i | 0 <= i < |tasks|
      ensures Planned(acc, tasks[i].task) && (tasks[i].state == Succeeded <==> CompleteTask(tasks[i].task) in acc)
    {
      KindsMembers(tasks, i);
      EntryHistory(tasks, acc, i);
    }
    forall k: Task | Planned(acc, k) ensures exists i :: 0 <= i < |tasks| && tasks[i].task == k {
      TaskHistory(tasks, acc, k);
    }
  }

  /** In every run, what was accepted tells the phase. */
  lemma PhaseTold(ts: seq<Transition>, phase: Phase)
    ensures Run(Status.Planning, ts).GetPhase() == phase <==> TellsPhase(Accepted(Status.Planning, ts), phase)
  {
    RunRemembers(ts);
    var s, acc := Run(Status.Planning, ts), Accepted(Status.Planning, ts);
    if s.Sealed? {
      TablePhase(s.tasks, acc, phase);
    } else {
      NothingPlanned(acc, RemoteAccounts);
      forall k: Task ensures !Planned(acc, k) {
        NothingPlanned(acc, k);
      }
      if s.PlanningFailed? {
        assert acc[0] in acc;
      }
    }
  }

  // ----- the order of a sealed table

  /** `a` is mentioned before `b` is first mentioned. */
  ghost predicate MentionedBefore(tasks: seq<Task>, a: Task, b: Task) {
    exists m :: 0 <= m < |tasks| && tasks[m] == a && b !in tasks[..m + 1]
  }

  /** Sealing keeps the order of first mention. */
  lemma {:induction false} SealOrder(tasks: seq<Task>, i: nat, j: nat)
    requires i < j < |DistinctKinds(tasks)|
    ensures MentionedBefore(tasks, DistinctKinds(tasks)[i], DistinctKinds(tasks)[j])
  {
    var n := |tasks| - 1;
    var init := tasks[..n];
    var d := DistinctKinds(init);
    var a, b := DistinctKinds(tasks)[i], DistinctKinds(tasks)[j];
    if j < |d| {
      SealOrder(init, i, j);
      var m :| 0 <= m < |init| && init[m] == a && b !in init[..m + 1];
      assert tasks[..m + 1] == init[..m + 1];
    } else {
      assert a in init;
      var m :| 0 <= m < |init| && init[m] == a;
      assert tasks[m] == a && forall x :: x in tasks[..m + 1] ==> x in init;
    }
  }

  // ----- what is shown to clients

  /** In every run, startup is shown as nothing when it is complete, as one completed execution with the one reason
      when it failed, and as one incomplete execution otherwise; the surfnet's own executions are never touched. */
  lemma ShownExecutions(own: seq<Execution>, ts: seq<Transition>, startedAt: nat)
    ensures var acc := Accepted(Status.Planning, ts);
            var shown := WithStartup(own, Run(Status.Planning, ts), startedAt);
            if CompletedPlan(acc) then shown == own
            else if HasFailure(acc) then
              exists reason :: IsReason(acc, reason) &&
                shown == own + [Execution(startedAt, Some(startedAt), "surfpool-startup", Some([reason]))]
            else shown == own + [Execution(startedAt, None, "surfpool-startup", None)]
  {
    ReadyIffCompleted(ts);
    PhaseTold(ts, Phase.Failed);
    FailureTold(ts);
  }
}
