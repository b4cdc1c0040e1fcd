/** The startup lifecycle machine: states, the one transition function, and the object that applies it. */
module Startup {
  import opened Prelude

  datatype Phase = Planning | CloningRemoteAccounts | ExecutingRunbooks | Ready | Failed

  datatype Task = RemoteAccounts | RunbookExecutions

  datatype TaskState = Pending | Running | Succeeded | Failed

  datatype TaskStatus = TaskStatus(task: Task, state: TaskState, error: Option<string>)

  datatype Transition =
    | SealPlan(tasks: seq<Task>)
    | FailPlanning(error: string)
    | StartTask(task: Task)
    | CompleteTask(task: Task)
    | FailTask(task: Task, error: string)

  predicate AnyFailed(tasks: seq<TaskStatus>) {
    exists i :: 0 <= i < |tasks| && tasks[i].state == TaskState.Failed
  }

  predicate AllSucceeded(tasks: seq<TaskStatus>) {
    forall i :: 0 <= i < |tasks| ==> tasks[i].state == Succeeded
  }

  predicate CloningOutstanding(tasks: seq<TaskStatus>) {
    exists i :: 0 <= i < |tasks| && tasks[i].task == RemoteAccounts && tasks[i].state != Succeeded
  }

  function PlanPhase(tasks: seq<TaskStatus>): Phase {
    if AnyFailed(tasks) then Phase.Failed
    else if AllSucceeded(tasks) then Ready
    else if CloningOutstanding(tasks) then CloningRemoteAccounts
    else ExecutingRunbooks
  }

  predicate Terminal(phase: Phase) {
    phase == Ready || phase == Phase.Failed
  }

  datatype Status = Planning | PlanningFailed(reason: string) | Sealed(tasks: seq<TaskStatus>)
  {
    function GetPhase(): Phase {
      match this
      case Planning => Phase.Planning
      case PlanningFailed(_) => Phase.Failed
      case Sealed(tasks) => PlanPhase(tasks)
    }

    /** The planning error, or the first failed task's error. */
    function GetError(): Option<string> {
      match this
      case Planning => None
      case PlanningFailed(reason) => Some(reason)
      case Sealed(tasks) => FirstFailure(tasks)
    }

    function FailureMessages(): seq<string> {
      match this
      case Planning => []
      case PlanningFailed(reason) => [reason]
      case Sealed(tasks) => Errors(tasks)
    }
  }

  function FirstFailure(tasks: seq<TaskStatus>): Option<string> {
    if tasks == [] then None
    else if tasks[0].state == TaskState.Failed then tasks[0].error
    else FirstFailure(tasks[1..])
  }

  function Errors(tasks: seq<TaskStatus>): seq<string> {
    if tasks == [] then [] else
      (if tasks[0].error.Some? then [tasks[0].error.value] else []) + Errors(tasks[1..])
  }

  function Kinds(tasks: seq<TaskStatus>): seq<Task> {
    seq(|tasks|, i requires 0 <= i < |tasks| => tasks[i].task)
  }

  /** The distinct kinds of a payload, each at its first occurrence. */
  function DistinctKinds(tasks: seq<Task>): (d: seq<Task>)
    ensures Distinct(d)
    ensures forall k :: k in d <==> k in tasks
  {
    if tasks == [] then [] else
      var d := DistinctKinds(tasks[..|tasks| - 1]);
      if tasks[|tasks| - 1] in d then d else d + [tasks[|tasks| - 1]]
  }

  function FreshTasks(kinds: seq<Task>): seq<TaskStatus> {
    seq(|kinds|, i requires 0 <= i < |kinds| => TaskStatus(kinds[i], Pending, None))
  }

  /** The first entry for `task`; the length of the table when there is none. */
  function IndexOf(tasks: seq<TaskStatus>, task: Task): (i: nat)
    ensures i <= |tasks|
    ensures i < |tasks| ==> tasks[i].task == task
    ensures forall j :: 0 <= j < i ==> tasks[j].task != task
  {
    FirstIndex(tasks, (e: TaskStatus) => e.task == task)
  }

  predicate IsTaskMove(t: Transition) {
    t.StartTask? || t.CompleteTask? || t.FailTask?
  }

  /** One row of the task lifecycle table; `None` is a forbidden move. */
  function MoveEntry(e: TaskStatus, t: Transition): Option<TaskStatus>
    requires IsTaskMove(t)
  {
    match t
    case StartTask(_) => if e.state == Pending then Some(e.(state := Running)) else None
    case CompleteTask(_) => if e.state == Running then Some(e.(state := Succeeded)) else None
    case FailTask(_, error) =>
      if e.state == Pending || e.state == Running
      then Some(e.(state := TaskState.Failed, error := Some(error)))
      else None
  }

  function MoveTask(tasks: seq<TaskStatus>, t: Transition): Option<seq<TaskStatus>>
    requires IsTaskMove(t)
  {
    var i := IndexOf(tasks, t.task);
    if Terminal(PlanPhase(tasks)) || i == |tasks| then None else
      match MoveEntry(tasks[i], t)
      case Some(e) => Some(tasks[i := e])
      case None => None
  }

  /** The state after an accepted transition; `None` when the machine refuses it. */
  function Next(s: Status, t: Transition): Option<Status> {
    match t
    case SealPlan(tasks) => if s.Planning? then Some(Sealed(FreshTasks(DistinctKinds(tasks)))) else None
    case FailPlanning(error) => if s.Planning? then Some(PlanningFailed(error)) else None
    case _ =>
      if !s.Sealed? then None else
        match MoveTask(s.tasks, t) case Some(tasks) => Some(Sealed(tasks)) case None => None
  }

  datatype StartupError = StartupError(attempted: Transition, from: Status)

  /** The status a surfnet holds and moves in place. */
  class StartupMachine {
    var status: Status

    constructor ()
      ensures status == Status.Planning
    {
      status := Status.Planning;
    }

    /** The one door: an accepted move follows `Next`, and a refusal mutates nothing and carries its evidence. */
    method Apply(t: Transition) returns (r: Result<(), StartupError>)
      modifies this
      ensures r.Ok? <==> Next(old(status), t).Some?
      ensures r.Ok? ==> Some(status) == Next(old(status), t)
      ensures r.Err? ==> status == old(status) && r.error == StartupError(t, old(status))
    {
      var accepted := false;
      match t {
        case SealPlan(tasks) =>
          if status.Planning? {
            var entries := SealTasks(tasks);
            status := Sealed(entries);
            accepted := true;
          }
        case FailPlanning(error) =>
          if status.Planning? {
            status := PlanningFailed(error);
            accepted := true;
          }
        case StartTask(task) => accepted := Start(task);
        case CompleteTask(task) => accepted := Complete(task);
        case FailTask(task, error) => accepted := Fail(task, error);
      }
      return if accepted then Ok(()) else Err(StartupError(t, status));
    }

    method Start(task: Task) returns (accepted: bool)
      modifies this
      ensures accepted <==> Next(old(status), StartTask(task)).Some?
      ensures status == if accepted then Next(old(status), StartTask(task)).value else old(status)
    {
      if !status.Sealed? || Terminal(status.GetPhase()) { return false; }
      var i := IndexOf(status.tasks, task);
      if i == |status.tasks| || status.tasks[i].state != Pending { return false; }
      status := Sealed(status.tasks[i := status.tasks[i].(state := Running)]);
      return true;
    }

    method Complete(task: Task) returns (accepted: bool)
      modifies this
      ensures accepted <==> Next(old(status), CompleteTask(task)).Some?
      ensures status == if accepted then Next(old(status), CompleteTask(task)).value else old(status)
    {
      if !status.Sealed? || Terminal(status.GetPhase()) { return false; }
      var i := IndexOf(status.tasks, task);
      if i == |status.tasks| || status.tasks[i].state != Running { return false; }
      status := Sealed(status.tasks[i := status.tasks[i].(state := Succeeded)]);
      return true;
    }

    method Fail(task: Task, error: string) returns (accepted: bool)
      modifies this
      ensures accepted <==> Next(old(status), FailTask(task, error)).Some?
      ensures status == if accepted then Next(old(status), FailTask(task, error)).value else old(status)
    {
      if !status.Sealed? || Terminal(status.GetPhase()) { return false; }
      var i := IndexOf(status.tasks, task);
      if i == |status.tasks| || (status.tasks[i].state != Pending && status.tasks[i].state != Running) { return false; }
      status := Sealed(status.tasks[i := status.tasks[i].(state := TaskState.Failed, error := Some(error))]);
      return true;
    }
  }

  /** `SealedStartupPlan::new`: a task named twice is one obligation. */
  method SealTasks(tasks: seq<Task>) returns (entries: seq<TaskStatus>)
    ensures entries == FreshTasks(DistinctKinds(tasks))
  {
    entries := [];
    for i := 0 to |tasks|
      invariant entries == FreshTasks(DistinctKinds(tasks[..i]))
    {
      assert tasks[..i + 1][..i] == tasks[..i];
      var known := exists j :: 0 <= j < |entries| && entries[j].task == tasks[i];
      assert known <==> tasks[i] in DistinctKinds(tasks[..i]) by {
        assert forall j :: 0 <= j < |entries| ==> entries[j].task == DistinctKinds(tasks[..i])[j];
      }
      if !known {
        entries := entries + [TaskStatus(tasks[i], Pending, None)];
      }
    }
    assert tasks[..|tasks|] == tasks;
  }
}
